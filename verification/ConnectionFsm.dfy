/** telnet_fsm.hpp: the connection life cycle of one relay.  The network is a
    nondeterministic partner: whoever processes an event supplies the outcome of
    the connect or login that entering a state would attempt. */
module ConnectionFsm {

  datatype State = Idle | Connecting | ConnectWait | LoginL1 | LoginRetryWait | Operational | Error

  datatype Event = StartEvent | StepEvent | DisconnectEvent

  /** The client after an attempt: last I/O result, and whether the response shows
      a prompt or a rejection. */
  datatype Outcome = Outcome(ioOk: bool, prompt: bool, invalid: bool)

  /** state, RetryState::current_attempt, and the client as the last attempt left it. */
  datatype Fsm = Fsm(state: State, attempts: nat, client: Outcome)

  const INITIAL := Fsm(Idle, 0, Outcome(false, false, false))

  predicate LoginComplete(client: Outcome) { client.ioOk && client.prompt }

  /** The transition table; events it does not list lead to Error. */
  function Target(f: Fsm, maxRetries: nat, ev: Event): State {
    match (f.state, ev)
    case (Idle, StartEvent) => Connecting
    case (Connecting, StepEvent) => if f.client.ioOk then LoginL1 else ConnectWait
    case (ConnectWait, StepEvent) => Connecting
    case (LoginL1, StepEvent) =>
      if LoginComplete(f.client) then Operational
      else if f.client.invalid && f.attempts < maxRetries then LoginRetryWait
      else if f.client.invalid then Error
      else ConnectWait
    case (LoginRetryWait, StepEvent) => Connecting
    case (Operational, StepEvent) => Operational
    case (Operational, DisconnectEvent) => Connecting
    case (Error, DisconnectEvent) => Connecting
    case _ => Error
  }

  /** Entering a state runs its entry action. */
  function Enter(f: Fsm, state: State, outcome: Outcome): Fsm {
    match state
    case Connecting => f.(state := state, client := outcome)
    case LoginL1 => f.(state := state, client := outcome)
    case LoginRetryWait => f.(state := state, attempts := f.attempts + 1)
    case Operational => f.(state := state, attempts := 0)
    case Error => f.(state := state, attempts := 0)
    case _ => f.(state := state)
  }

  function Next(f: Fsm, maxRetries: nat, ev: Event, outcome: Outcome): Fsm {
    Enter(f, Target(f, maxRetries, ev), outcome)
  }

  class RelayConnection {
    const maxRetries: nat
    var state: State
    var attempts: nat
    var client: Outcome

    ghost function Abs(): Fsm
      reads this
    {
      Fsm(state, attempts, client)
    }

    constructor (maxRetries: nat)
      ensures Abs() == INITIAL && this.maxRetries == maxRetries
    {
      this.maxRetries := maxRetries;
      state, attempts, client := Idle, 0, Outcome(false, false, false);
    }

    method ProcessEvent(ev: Event, outcome: Outcome)
      modifies this
      ensures Abs() == Next(old(Abs()), maxRetries, ev, outcome)
    {
      var target := Error;
      if state == Idle && ev == StartEvent {
        target := Connecting;
      } else if state == Connecting && ev == StepEvent {
        target := if client.ioOk then LoginL1 else ConnectWait;
      } else if (state == ConnectWait || state == LoginRetryWait) && ev == StepEvent {
        target := Connecting;
      } else if state == LoginL1 && ev == StepEvent {
        if client.ioOk && client.prompt {
          target := Operational;
        } else if client.invalid && attempts < maxRetries {
          target := LoginRetryWait;
        } else if !client.invalid {
          target := ConnectWait;
        }
      } else if state == Operational && ev == StepEvent {
        target := Operational;
      } else if (state == Operational || state == Error) && ev == DisconnectEvent {
        target := Connecting;
      }
      state := target;
      if target == Connecting || target == LoginL1 {
        client := outcome;
      } else if target == LoginRetryWait {
        attempts := attempts + 1;
      } else if target == Operational || target == Error {
        attempts := 0;
      }
    }
  }

  // ---- Runs ---------------------------------------------------------------------

  datatype Stimulus = Stimulus(ev: Event, outcome: Outcome)

  function Run(maxRetries: nat, f: Fsm, stimuli: seq<Stimulus>): Fsm {
    if stimuli == [] then f
    else
      var last := stimuli[|stimuli| - 1];
      Next(Run(maxRetries, f, stimuli[..|stimuli| - 1]), maxRetries, last.ev, last.outcome)
  }

  /** Entries to LoginRetryWait during a run. */
  function RetryEntries(maxRetries: nat, f: Fsm, stimuli: seq<Stimulus>): nat {
    if stimuli == [] then 0
    else
      var entered := Run(maxRetries, f, stimuli).state == LoginRetryWait;
      RetryEntries(maxRetries, f, stimuli[..|stimuli| - 1]) + if entered then 1 else 0
  }

  ghost predicate NeverSettles(maxRetries: nat, f: Fsm, stimuli: seq<Stimulus>) {
    forall k :: 0 < k <= |stimuli| ==> Run(maxRetries, f, stimuli[..k]).state !in {Operational, Error}
  }

  lemma {:induction false} AttemptsBounded(maxRetries: nat, f: Fsm, stimuli: seq<Stimulus>)
    requires f.attempts <= maxRetries
    ensures Run(maxRetries, f, stimuli).attempts <= maxRetries
  {
    if stimuli != [] {
      AttemptsBounded(maxRetries, f, stimuli[..|stimuli| - 1]);
    }
  }

  lemma {:induction false} AttemptsCountRetries(maxRetries: nat, f: Fsm, stimuli: seq<Stimulus>)
    requires NeverSettles(maxRetries, f, stimuli)
    ensures Run(maxRetries, f, stimuli).attempts == f.attempts + RetryEntries(maxRetries, f, stimuli)
  {
    if stimuli != [] {
      var rest := stimuli[..|stimuli| - 1];
      assert forall k :: 0 < k <= |rest| ==> rest[..k] == stimuli[..k];
      assert stimuli[..|stimuli|] == stimuli;
      AttemptsCountRetries(maxRetries, f, rest);
    }
  }

  /** In every run from the start, between two entries to Operational or Error there
      are at most maxRetries entries to LoginRetryWait. */
  lemma RetriesBounded(maxRetries: nat, before: seq<Stimulus>, between: seq<Stimulus>)
    requires NeverSettles(maxRetries, Run(maxRetries, INITIAL, before), between)
    ensures RetryEntries(maxRetries, Run(maxRetries, INITIAL, before), between) <= maxRetries
  {
    var f := Run(maxRetries, INITIAL, before);
    AttemptsBounded(maxRetries, INITIAL, before);
    AttemptsBounded(maxRetries, f, between);
    AttemptsCountRetries(maxRetries, f, between);
  }

  /** A login was tried and refused: no prompt, and a rejection in the response. */
  predicate Rejected(f: Fsm) {
    f.state == LoginL1 && !LoginComplete(f.client) && f.client.invalid
  }

  /** The machine has just settled: at the start, or on entering Operational or Error. */
  predicate Settled(maxRetries: nat, before: seq<Stimulus>) {
    before == [] || Run(maxRetries, INITIAL, before).state in {Operational, Error}
  }

  /** Between settlements the first max_retries rejections lead to another try, and the
      next one, no earlier, to Error. */
  lemma RejectionLeads(maxRetries: nat, before: seq<Stimulus>, between: seq<Stimulus>, outcome: Outcome)
    requires Settled(maxRetries, before) && NeverSettles(maxRetries, Run(maxRetries, INITIAL, before), between)
    requires Rejected(Run(maxRetries, Run(maxRetries, INITIAL, before), between))
    ensures var f := Run(maxRetries, INITIAL, before);
      Next(Run(maxRetries, f, between), maxRetries, StepEvent, outcome).state ==
        if RetryEntries(maxRetries, f, between) < maxRetries then LoginRetryWait else Error
  {
    var f := Run(maxRetries, INITIAL, before);
    assert f.attempts == 0;
    AttemptsCountRetries(maxRetries, f, between);
  }

  /** The life cycle, event by event: where each leads, what the client then shows, and
      what becomes of the retry counter. */
  lemma LifeCycle(f: Fsm, maxRetries: nat, outcome: Outcome)
    ensures Next(f, maxRetries, StartEvent, outcome).state == if f.state == Idle then Connecting else Error
    ensures Next(f, maxRetries, DisconnectEvent, outcome).state ==
      if f.state in {Operational, Error} then Connecting else Error
    ensures f.state in {ConnectWait, LoginRetryWait} ==> Next(f, maxRetries, StepEvent, outcome).state == Connecting
    ensures f.state == Connecting ==>
      Next(f, maxRetries, StepEvent, outcome).state == if f.client.ioOk then LoginL1 else ConnectWait
    ensures f.state == LoginL1 && f.client.ioOk && f.client.prompt ==>
      Next(f, maxRetries, StepEvent, outcome).state == Operational
    ensures f.state == LoginL1 && !(f.client.ioOk && f.client.prompt) && !f.client.invalid ==>
      Next(f, maxRetries, StepEvent, outcome).state == ConnectWait
    ensures f.state == Operational ==> Next(f, maxRetries, StepEvent, outcome).state == Operational
    ensures f.state in {Idle, Error} ==> Next(f, maxRetries, StepEvent, outcome).state == Error
    ensures forall ev :: var next := Next(f, maxRetries, ev, outcome);
      && (next.client == if next.state in {Connecting, LoginL1} then outcome else f.client)
      && (next.attempts == if next.state in {Operational, Error} then 0
                           else if next.state == LoginRetryWait then f.attempts + 1 else f.attempts)
  {
  }

  // ---- The driver's choice of events -------------------------------------------------

  function DriverEvent(f: Fsm): Event {
    if f.state == Error then DisconnectEvent else StepEvent
  }

  /** The driver's loop over the outcomes it meets; it stops in Operational. */
  function Drive(f: Fsm, maxRetries: nat, outcomes: seq<Outcome>): Fsm
    decreases |outcomes|
  {
    if f.state == Operational || outcomes == [] then f
    else Drive(Next(f, maxRetries, DriverEvent(f), outcomes[0]), maxRetries, outcomes[1..])
  }

  predicate AllGood(outcomes: seq<Outcome>) {
    forall k :: 0 <= k < |outcomes| ==> LoginComplete(outcomes[k])
  }

  /** Events the driver still needs when everything goes well from now on. */
  function Needed(f: Fsm): nat {
    match f.state
    case Operational => 0
    case LoginL1 => if LoginComplete(f.client) then 1 else 4
    case Connecting => if f.client.ioOk then 2 else 4
    case ConnectWait => 3
    case LoginRetryWait => 3
    case Error => 3
    case Idle => 4
  }

  /** The driver reaches Operational with that many good outcomes, not with fewer. */
  lemma {:induction false} NeededIsExact(f: Fsm, maxRetries: nat, outcomes: seq<Outcome>)
    requires AllGood(outcomes)
    ensures Drive(f, maxRetries, outcomes).state == Operational <==> |outcomes| >= Needed(f)
    decreases |outcomes|
  {
    if f.state != Operational && outcomes != [] {
      NeededIsExact(Next(f, maxRetries, DriverEvent(f), outcomes[0]), maxRetries, outcomes[1..]);
    }
  }

  /** From every state whatsoever, Idle and Error included, four events suffice. */
  lemma FourEventsSuffice(f: Fsm, maxRetries: nat, outcomes: seq<Outcome>)
    requires |outcomes| >= 4 && AllGood(outcomes)
    ensures Drive(f, maxRetries, outcomes).state == Operational
  {
    NeededIsExact(f, maxRetries, outcomes);
  }

  /** A driver that meets a bad spell of any length still gets there four events
      after it ends. */
  lemma {:induction false} DriveReaches(f: Fsm, maxRetries: nat, outcomes: seq<Outcome>, n: nat)
    requires n + 4 <= |outcomes| && AllGood(outcomes[n..])
    ensures Drive(f, maxRetries, outcomes).state == Operational
    decreases n
  {
    if n == 0 {
      assert outcomes[0..] == outcomes;
      FourEventsSuffice(f, maxRetries, outcomes);
    } else if f.state != Operational {
      assert outcomes[1..][n - 1..] == outcomes[n..];
      DriveReaches(Next(f, maxRetries, DriverEvent(f), outcomes[0]), maxRetries, outcomes[1..], n - 1);
    }
  }
}
