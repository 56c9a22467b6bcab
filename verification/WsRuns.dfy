/** Whole runs of a WebSocket session: serialised writes in order, and the one
    read token that must not be duplicated or lost. */
module WsRuns {
  import opened Wrappers
  import opened WsSession
  import opened Strings

  predicate Possible(config: Config, evs: seq<Event>)
    decreases |evs|, 0
  {
    evs == [] || (Possible(config, evs[..|evs| - 1]) && Enabled(Run(config, evs[..|evs| - 1]), evs[|evs| - 1]))
  }

  function Run(config: Config, evs: seq<Event>): Session
    requires Possible(config, evs)
    decreases |evs|, 1
  {
    if evs == [] then INITIAL else Step(config, Run(config, evs[..|evs| - 1]), evs[|evs| - 1])
  }

  /** Outstanding reads, handler threads that owe one, and the pending flag. */
  function Tokens(s: Session): nat {
    s.reading + s.owed + if s.pendingRead then 1 else 0
  }

  predicate WillResume(s: Session) {
    (s.inflight.Some? && s.inflight.value.handler == OnWrite) || SendAll in s.queue
  }

  /** At most one holder of the read token, and frames queued only behind a write. */
  predicate Sound(s: Session) {
    && Tokens(s) <= 1
    && (s.queue != [] ==> s.inflight.Some?)
    && (s.phase == Opening ==> s == INITIAL)
  }

  /** The frames started, then those queued, are exactly the sends in strand order,
      and a pending read will be started. */
  predicate InOrder(s: Session) {
    s.sends == s.started + s.queue && (s.pendingRead ==> WillResume(s))
  }

  predicate NoFailedWrite(evs: seq<Event>) {
    forall k :: 0 <= k < |evs| ==> evs[k] != WriteDone(false)
  }

  lemma SubmitInOrder(s: Session, msg: PendingMsg)
    requires s.queue != [] ==> s.inflight.Some?
    requires s.sends == s.started + s.queue
    ensures var t := Submit(s, msg);
      && t.inflight.Some? && t.pendingRead == s.pendingRead
      && t.sends == t.started + t.queue
      && (WillResume(s) || msg == SendAll ==> WillResume(t))
  {
    if s.inflight.Some? {
      assert s.sends + [msg] == s.started + (s.queue + [msg]);
    } else {
      assert s.started + [] == s.started;
    }
  }

  lemma DrainInOrder(s: Session)
    requires s.inflight.None?
    ensures var t := Drain(s);
      && (t.queue != [] ==> t.inflight.Some?) && t.pendingRead == s.pendingRead
      && (s.sends == s.started + s.queue ==> t.sends == t.started + t.queue)
      && (SendAll in s.queue ==> WillResume(t))
  {
    if s.queue != [] {
      assert s.started + s.queue == (s.started + [s.queue[0]]) + s.queue[1..];
    }
  }

  lemma StepSound(config: Config, s: Session, ev: Event)
    requires Sound(s) && Enabled(s, ev)
    ensures Sound(Step(config, s, ev))
  {
  }

  lemma StepInOrder(config: Config, s: Session, ev: Event)
    requires Sound(s) && InOrder(s) && Enabled(s, ev) && ev != WriteDone(false)
    ensures InOrder(Step(config, s, ev))
  {
    hide Classify, Submit, Drain;
    match ev {
      case Accept(ok) => SubmitInOrder(s.(phase := Open, pendingRead := true), SendAll);
      case ReadDone(ok, msg) => SubmitInOrder(s.(reading := s.reading - 1, pendingRead := true), SendAll);
      case WriteDone(ok) =>
        var idle := s.(inflight := None);
        DrainInOrder(idle);
        DrainInOrder(idle.(pendingRead := false, reading := s.reading + 1));
      case PostBinary(data) => SubmitInOrder(s, Binary(data));
      case PostText(text) => SubmitInOrder(s, Text(text));
      case ActionDone(response) => SubmitInOrder(s, Text(response));
      case CommandDone =>
      case HandlerThrew =>
    }
  }

  /** In every run: outstanding reads, handler threads that owe one and the pending
      flag never exceed one, and queued frames mean a write is under way. */
  lemma {:induction false} RunSound(config: Config, evs: seq<Event>)
    requires Possible(config, evs)
    ensures Sound(Run(config, evs))
  {
    if evs != [] {
      RunSound(config, evs[..|evs| - 1]);
      StepSound(config, Run(config, evs[..|evs| - 1]), evs[|evs| - 1]);
    }
  }

  /** Up to the first failed write, whatever else fails, the frames started, then
      those queued, are exactly the sends in strand order: none lost, none twice. */
  lemma {:induction false} RunInOrder(config: Config, evs: seq<Event>)
    requires Possible(config, evs) && NoFailedWrite(evs)
    ensures InOrder(Run(config, evs))
  {
    if evs != [] {
      RunSound(config, evs[..|evs| - 1]);
      RunInOrder(config, evs[..|evs| - 1]);
      StepInOrder(config, Run(config, evs[..|evs| - 1]), evs[|evs| - 1]);
    }
  }

  // ---- The read token ----------------------------------------------------------------

  /** The events that end reading: a read error, a handler that throws, and a request
      for a handler where there is no session manager to run it. */
  predicate LosesToken(config: Config, ev: Event) {
    || (ev.ReadDone? && !ev.ok)
    || ev.HandlerThrew?
    || (ev.ReadDone? && ev.ok && Classify(config, ev.msg) == Spawn && !config.hasManager)
  }

  predicate TokenLost(config: Config, evs: seq<Event>) {
    exists k :: 0 <= k < |evs| && LosesToken(config, evs[k])
  }

  lemma StepToken(config: Config, s: Session, ev: Event)
    requires Sound(s) && Enabled(s, ev)
    ensures var t := Step(config, s, ev);
      if s.phase == Open then t.phase == Open && Tokens(t) == Tokens(s) - (if LosesToken(config, ev) then 1 else 0)
      else if s.phase == Opening then !LosesToken(config, ev) && Tokens(t) == (if t.phase == Open then 1 else 0)
      else t.phase == Refused
  {
    hide Classify;
  }

  /** In every run of an accepted session exactly one holder of the read token is
      left, unless one of those events has happened: then none is. */
  lemma {:induction false} TokenIff(config: Config, evs: seq<Event>)
    requires Possible(config, evs)
    ensures var s := Run(config, evs);
      && (s.phase == Open ==> Tokens(s) == if TokenLost(config, evs) then 0 else 1)
      && (s.phase == Opening ==> evs == [])
      && (s.phase == Refused ==> Tokens(s) == 0)
  {
    if evs != [] {
      var rest, ev := evs[..|evs| - 1], evs[|evs| - 1];
      TokenIff(config, rest);
      RunSound(config, rest);
      StepToken(config, Run(config, rest), ev);
      TokenLostGrows(config, evs);
    }
  }

  lemma TokenLostGrows(config: Config, evs: seq<Event>)
    requires evs != []
    ensures TokenLost(config, evs) <==> TokenLost(config, evs[..|evs| - 1]) || LosesToken(config, evs[|evs| - 1])
  {
    var rest := evs[..|evs| - 1];
    if k :| 0 <= k < |rest| && LosesToken(config, rest[k]) {
      assert LosesToken(config, evs[k]);
    } else if k :| 0 <= k < |evs| && LosesToken(config, evs[k]) {
      assert k < |rest| ==> LosesToken(config, rest[k]);
    }
  }

  // ---- What is asked for, and what is put on the wire -------------------------------

  /** The frames one event asks for. */
  function Wanted(ev: Event): seq<PendingMsg> {
    match ev
    case Accept(ok) => if ok then [SendAll] else []
    case ReadDone(ok, msg) => if ok && (msg == "refresh" || msg == "getData") then [SendAll] else []
    case PostBinary(data) => [Binary(data)]
    case PostText(text) => [Text(text)]
    case ActionDone(response) => [Text(response)]
    case _ => []
  }

  function Asked(evs: seq<Event>): seq<PendingMsg> {
    if evs == [] then [] else Asked(evs[..|evs| - 1]) + Wanted(evs[|evs| - 1])
  }

  /** The frames sent in a run are those its events ask for: the whole database on
      acceptance and on either refresh word, and every posted or answered frame. */
  lemma {:induction false} SendsAsked(config: Config, evs: seq<Event>)
    requires Possible(config, evs)
    ensures Run(config, evs).sends == Asked(evs)
  {
    if evs != [] {
      hide Step, Enabled, Wanted;
      SendsAsked(config, evs[..|evs| - 1]);
      StepAsks(config, Run(config, evs[..|evs| - 1]), evs[|evs| - 1]);
    }
  }

  lemma StepAsks(config: Config, s: Session, ev: Event)
    requires Enabled(s, ev)
    ensures Step(config, s, ev).sends == s.sends + Wanted(ev)
  {
    hide IsJsonAction;
  }

  /** Up to the first failed write they have all been started, or wait in the queue. */
  lemma StartedAsked(config: Config, evs: seq<Event>)
    requires Possible(config, evs) && NoFailedWrite(evs)
    ensures Run(config, evs).started + Run(config, evs).queue == Asked(evs)
  {
    RunInOrder(config, evs);
    SendsAsked(config, evs);
  }

  /** Which messages mean what, by their text. */
  lemma ClassifyIs(config: Config, msg: string)
    ensures Classify(config, msg) == Refresh <==> msg in {"refresh", "getData"}
    ensures Classify(config, msg) == Spawn <==>
      && msg !in {"refresh", "getData"}
      && (config.hasCommand
          || (config.hasAction && |msg| > 0 && msg[0] == '{'
              && (Contains(msg, "\"action\"") || Contains(msg, "\"type\""))))
  {
    FindContains(msg, "\"action\"", 0);
    FindContains(msg, "\"type\"", 0);
  }

  /** How many frames have been started after the first j events. */
  function Begun(config: Config, evs: seq<Event>, j: nat): nat
    requires Possible(config, evs) && j <= |evs|
  {
    PossiblePrefix(config, evs, j);
    |Run(config, evs[..j]).started|
  }

  /** What event j started carries the database contents as event j found them, or
      its own data. */
  ghost predicate CarriesAt(config: Config, evs: seq<Event>, snapshots: seq<Octets>, wire: seq<Flight>, j: nat)
    requires Possible(config, evs) && j < |evs| == |snapshots|
  {
    && Begun(config, evs, j) <= Begun(config, evs, j + 1) <= |wire|
    && forall k :: Begun(config, evs, j) <= k < Begun(config, evs, j + 1) ==> Carries(wire[k], snapshots[j])
  }

  lemma CarriesOn(
    config: Config, evs: seq<Event>, snapshots: seq<Octets>, before: seq<Flight>, after: seq<Flight>, k: nat)
    requires Possible(config, evs) && k < |evs| == |snapshots|
    requires forall j :: 0 <= j < k ==> CarriesAt(config, evs, snapshots, before, j)
    requires |before| == Begun(config, evs, k) && |after| == Begun(config, evs, k + 1)
    requires Adds(before, after, snapshots[k])
    ensures forall j :: 0 <= j <= k ==> CarriesAt(config, evs, snapshots, after, j)
  {
    hide Possible, Begun, Carries;
    forall j | 0 <= j < k
      ensures CarriesAt(config, evs, snapshots, after, j)
    {
      assert CarriesAt(config, evs, snapshots, before, j);
      forall i | Begun(config, evs, j) <= i < Begun(config, evs, j + 1)
        ensures Carries(after[i], snapshots[j])
      {
        assert after[i] == after[..|before|][i] == before[i];
      }
    }
  }

  /** Any possible run on the real session object: the calls that would overlap two
      reads or two writes are never made, and each frame carries what it should. */
  method Execute(config: Config, evs: seq<Event>, snapshots: seq<Octets>) returns (session: WebSocketSession)
    requires Possible(config, evs) && |snapshots| == |evs|
    ensures session.Valid() && session.config == config && session.Abs() == Run(config, evs)
    ensures |session.wire| == |session.started|
    ensures forall k :: 0 <= k < |session.wire| ==> session.wire[k].write.msg == session.started[k]
    ensures forall j :: 0 <= j < |evs| ==> CarriesAt(config, evs, snapshots, session.wire, j)
  {
    session := new WebSocketSession(config);
    for k := 0 to |evs|
      invariant session.Valid() && fresh(session) && session.config == config
      invariant Possible(config, evs[..k]) && session.Abs() == Run(config, evs[..k])
      invariant forall j :: 0 <= j < k ==> CarriesAt(config, evs, snapshots, session.wire, j)
    {
      hide Carries, CarriesAt, Step, Enabled, CarriesOwn, Adds;
      PossiblePrefix(config, evs, k + 1);
      assert evs[..k + 1][..k] == evs[..k];
      RunSound(config, evs[..k]);
      ghost var before := session.wire;
      Perform(session, evs[k], snapshots[k]);
      CarriesOn(config, evs, snapshots, before, session.wire, k);
    }
    assert evs[..|evs|] == evs;
  }

  lemma {:induction false} PossiblePrefix(config: Config, evs: seq<Event>, k: nat)
    requires Possible(config, evs) && k <= |evs|
    ensures Possible(config, evs[..k])
    decreases |evs|
  {
    if k < |evs| {
      PossiblePrefix(config, evs[..|evs| - 1], k);
      assert evs[..|evs| - 1][..k] == evs[..k];
    } else {
      assert evs[..k] == evs;
    }
  }

  method Perform(session: WebSocketSession, ev: Event, snapshot: Octets)
    requires session.Valid() && Enabled(session.Abs(), ev) && Tokens(session.Abs()) <= 1
    modifies session
    ensures session.Valid() && session.Abs() == Step(session.config, old(session.Abs()), ev)
    ensures Adds(old(session.wire), session.wire, snapshot)
  {
    match ev {
      case Accept(ok) => session.OnAccept(ok, snapshot);
      case ReadDone(ok, msg) => session.OnRead(ok, msg, snapshot);
      case WriteDone(ok) => PerformWriteDone(session, ok, snapshot);
      case PostBinary(data) => session.DoBroadcast(data);
      case PostText(text) => session.SendTextResponse(text);
      case ActionDone(response) => session.ActionFinished(response);
      case CommandDone => session.CommandFinished();
      case HandlerThrew => session.HandlerFailed();
    }
  }

  /** The completion that runs is the one the write was started with. */
  method PerformWriteDone(session: WebSocketSession, ok: bool, snapshot: Octets)
    requires session.Valid() && Enabled(session.Abs(), WriteDone(ok)) && Tokens(session.Abs()) <= 1
    modifies session
    ensures session.Valid() && session.Abs() == Step(session.config, old(session.Abs()), WriteDone(ok))
    ensures Adds(old(session.wire), session.wire, snapshot)
  {
    var direct := session.CompletesInOnWrite();
    if direct {
      session.OnWriteDone(ok, snapshot);
    } else {
      session.OnBroadcastWriteDone(ok, snapshot);
    }
  }

  // ---- The read resumes ------------------------------------------------------------

  /** Successful completions until the pending read is started. */
  function Distance(s: Session): nat {
    if s.inflight.Some? && s.inflight.value.handler == OnWrite then 1 else 2 + FirstSendAll(s.queue)
  }

  function FirstSendAll(queue: seq<PendingMsg>): nat {
    if queue == [] || queue[0] == SendAll then 0 else 1 + FirstSendAll(queue[1..])
  }

  lemma {:induction false} FirstSendAllInside(queue: seq<PendingMsg>)
    requires SendAll in queue
    ensures FirstSendAll(queue) < |queue|
  {
    if queue[0] != SendAll {
      FirstSendAllInside(queue[1..]);
    }
  }

  lemma {:induction false} FirstSendAllStays(queue: seq<PendingMsg>, msg: PendingMsg)
    requires SendAll in queue
    ensures FirstSendAll(queue + [msg]) == FirstSendAll(queue)
  {
    if queue[0] != SendAll {
      FirstSendAllStays(queue[1..], msg);
      assert (queue + [msg])[1..] == queue[1..] + [msg];
    }
  }

  /** While the read stays pending, other traffic does not delay it and each
      successful completion brings it one step closer. */
  lemma StepCloser(config: Config, s: Session, ev: Event)
    requires Sound(s) && InOrder(s) && Enabled(s, ev) && s.pendingRead && ev != WriteDone(false)
    requires Step(config, s, ev).pendingRead
    ensures Distance(Step(config, s, ev)) + (if ev.WriteDone? then 1 else 0) <= Distance(s)
  {
    hide Classify;
    match ev {
      case Accept(ok) =>
      case ReadDone(ok, msg) =>
      case WriteDone(ok) =>
        assert s.queue[0] == SendAll || FirstSendAll(s.queue) == 1 + FirstSendAll(s.queue[1..]);
      case PostBinary(data) => SubmitKeepsDistance(s, Binary(data));
      case PostText(text) => SubmitKeepsDistance(s, Text(text));
      case ActionDone(response) => SubmitKeepsDistance(s, Text(response));
      case CommandDone =>
      case HandlerThrew =>
    }
  }

  lemma SubmitKeepsDistance(s: Session, msg: PendingMsg)
    requires WillResume(s) && (s.queue != [] ==> s.inflight.Some?)
    ensures Distance(Submit(s, msg)) == Distance(s)
  {
    if SendAll in s.queue {
      FirstSendAllStays(s.queue, msg);
    }
  }

  function Completions(evs: seq<Event>): nat {
    if evs == [] then 0 else Completions(evs[..|evs| - 1]) + if evs[|evs| - 1].WriteDone? then 1 else 0
  }

  /** The read is still pending throughout the run after its first `from` events. */
  ghost predicate PendingThroughout(config: Config, evs: seq<Event>, from: nat)
    requires Possible(config, evs) && from <= |evs|
  {
    forall k :: from <= k <= |evs| ==> Possible(config, evs[..k]) && Run(config, evs[..k]).pendingRead
  }

  lemma {:induction false} DistanceShrinks(config: Config, evs: seq<Event>, from: nat)
    requires Possible(config, evs) && from <= |evs| && PendingThroughout(config, evs, from) && NoFailedWrite(evs)
    ensures Possible(config, evs[..from])
    ensures Distance(Run(config, evs)) + Completions(evs)
      <= Distance(Run(config, evs[..from])) + Completions(evs[..from])
    decreases |evs|
  {
    hide Step, Distance, Enabled;
    PossiblePrefix(config, evs, from);
    if from == |evs| {
      assert evs[..from] == evs;
    } else {
      var rest := evs[..|evs| - 1];
      forall k | from <= k <= |rest|
        ensures Possible(config, rest[..k]) && Run(config, rest[..k]).pendingRead
      {
        assert rest[..k] == evs[..k];
      }
      DistanceShrinks(config, rest, from);
      assert rest[..from] == evs[..from];
      assert evs[..|evs|] == evs && evs[..|evs| - 1] == rest;
      assert Run(config, evs[..|evs|]).pendingRead && Run(config, evs[..|evs| - 1]).pendingRead;
      RunSound(config, rest);
      RunInOrder(config, rest);
      StepCloser(config, Run(config, rest), evs[|evs| - 1]);
    }
  }

  /** A pending read never waits for more than queue length + 1 successful writes: as
      long as it stays pending no more than queue length have completed. */
  lemma ReadResumes(config: Config, evs: seq<Event>, from: nat)
    requires Possible(config, evs) && from <= |evs| && PendingThroughout(config, evs, from) && NoFailedWrite(evs)
    ensures Possible(config, evs[..from])
    ensures Completions(evs) - Completions(evs[..from]) <= |Run(config, evs[..from]).queue|
  {
    DistanceShrinks(config, evs, from);
    RunInOrder(config, evs[..from]);
    var s := Run(config, evs[..from]);
    assert s.pendingRead;
    if SendAll in s.queue {
      FirstSendAllInside(s.queue);
    }
  }

  lemma OneMore(config: Config, evs: seq<Event>, ev: Event)
    requires Possible(config, evs) && Enabled(Run(config, evs), ev)
    ensures Possible(config, evs + [ev]) && Run(config, evs + [ev]) == Step(config, Run(config, evs), ev)
  {
    assert (evs + [ev])[..|evs|] == evs;
  }

  /** The token can be lost with no error at all: any message meant for a handler
      loses it in a session without a manager. */
  lemma NoManagerLosesToken(config: Config, msg: string)
    requires !config.hasManager && Classify(config, msg) == Spawn
    ensures var evs := [Accept(true), WriteDone(true), ReadDone(true, msg)];
      Possible(config, evs) && Run(config, evs).phase == Open && Tokens(Run(config, evs)) == 0
  {
    hide Classify;
    var e1, e2 := [Accept(true)], [Accept(true), WriteDone(true)];
    assert [] + [Accept(true)] == e1;
    OneMore(config, [], Accept(true));
    var s1 := Run(config, e1);
    assert s1.pendingRead && s1.queue == [] && s1.inflight == Some(Write(SendAll, OnWrite));
    assert e1 + [WriteDone(true)] == e2;
    OneMore(config, e1, WriteDone(true));
    var s2 := Run(config, e2);
    assert s2.reading == 1 && !s2.pendingRead && s2.owed == 0;
    assert e2 + [ReadDone(true, msg)] == [Accept(true), WriteDone(true), ReadDone(true, msg)];
    OneMore(config, e2, ReadDone(true, msg));
  }

  /** There are such messages for either kind of handler. */
  lemma HandlerMessages(config: Config)
    ensures config.hasAction ==> Classify(config, "{\"action\"") == Spawn
    ensures config.hasCommand ==> Classify(config, "TAR 0") == Spawn
    ensures !config.hasAction && !config.hasCommand ==> forall msg :: Classify(config, msg) != Spawn
  {
    var msg, needle := "{\"action\"", "\"action\"";
    assert |msg| == 9 && |"refresh"| == 7 && |"getData"| == 7 && |"TAR 0"| == 5;
    assert msg[1..9] == needle;
    assert msg[0..8][0] == '{' && needle[0] == '"';
    FindIs(msg, needle, 0, 1);
  }

  // ---- After a failed write ------------------------------------------------------------

  /** A read is pending and no completion to come will start it. */
  predicate Stranded(s: Session) {
    s.pendingRead && SendAll !in s.queue && (s.inflight.Some? ==> s.inflight.value.handler == OnBroadcastWrite)
  }

  /** A failed write leaves a pending read stranded. */
  lemma FailureStrands(config: Config, s: Session)
    requires Sound(s) && s.inflight.Some? && s.pendingRead
    ensures Stranded(Step(config, s, WriteDone(false)))
  {
  }

  /** Only a text frame posted while nothing is being written helps. */
  lemma StrandedStep(config: Config, s: Session, ev: Event)
    requires Sound(s) && Stranded(s) && Enabled(s, ev) && !(ev.PostText? && s.inflight.None?)
    ensures Stranded(Step(config, s, ev))
  {
    hide Classify;
    assert s.queue != [] ==> s.queue[0] in s.queue && forall m :: m in s.queue[1..] ==> m in s.queue;
  }

  /** So the read stays stranded in every run without such a text: other frames, sent or
      failing, do not start it. */
  lemma {:induction false} StrandedThroughout(config: Config, evs: seq<Event>, from: nat)
    requires Possible(config, evs) && from <= |evs| && Possible(config, evs[..from])
    requires Stranded(Run(config, evs[..from]))
    requires forall k :: from <= k < |evs| && evs[k].PostText? ==>
      Possible(config, evs[..k]) && Run(config, evs[..k]).inflight.Some?
    ensures Stranded(Run(config, evs)) && Run(config, evs).reading == 0
    decreases |evs|
  {
    hide Step, Enabled, Stranded;
    RunSound(config, evs);
    if from == |evs| {
      assert evs[..from] == evs;
    } else {
      var rest := evs[..|evs| - 1];
      assert rest[..from] == evs[..from];
      forall k | from <= k < |rest| && rest[k].PostText?
        ensures Possible(config, rest[..k]) && Run(config, rest[..k]).inflight.Some?
      {
        assert evs[k] == rest[k] && rest[..k] == evs[..k];
      }
      StrandedThroughout(config, rest, from);
      RunSound(config, rest);
      StrandedStep(config, Run(config, rest), evs[|evs| - 1]);
    }
    StrandedPending(Run(config, evs));
  }

  lemma StrandedPending(s: Session)
    requires Stranded(s)
    ensures s.pendingRead
  {
  }

  /** And such a text, once written, starts it. */
  lemma TextResumes(config: Config, s: Session, text: Octets)
    requires Sound(s) && Stranded(s) && s.inflight.None? && s.phase == Open
    ensures var sent := Step(config, s, PostText(text));
      Enabled(sent, WriteDone(true)) && Step(config, sent, WriteDone(true)).reading == 1
  {
  }
}
