/** Whole runs of a relay pipeline: from the queue of commands, over retries,
    reconnects, crashes and restarts, to what the processing worker sees. */
module PipelineRuns {
  import opened Wrappers
  import opened BroadcastLog
  import opened Sequences
  import opened Strings
  import opened ConnectionFsm
  import opened RawRing
  import opened Reception

  /** A pipeline with its past: every command ever queued, in order; which of them
      are waiting and which reached the ring, by position; where in the ring history
      the processing worker registered; and whether it has kept up since. */
  datatype Traced = Traced(p: Pipeline, queued: seq<string>, waiting: seq<nat>, pushed: seq<nat>, since: nat,
    keptUp: bool)

  const START := Traced(FRESH, [], [], [], 0, true)

  predicate Pushes(p: Pipeline, ev: PipelineEvent) {
    ev.Work? && p.running && p.queue != [] && Execute(p.fsm, ev.tries, MAX_RETRIES).ending.Success?
  }

  /** The processing worker has fewer than 100 messages unread. */
  predicate HasRoom(p: Pipeline) {
    p.reader.Some? && p.reader.value < |p.log.slots| && p.log.slots[p.reader.value].cursor.Some?
    && |p.log.history| - p.log.slots[p.reader.value].cursor.value < 100
  }

  function Follow(t: Traced, ev: PipelineEvent): Traced {
    var p := Advance(t.p, ev);
    var n := |t.queued|;
    match ev
    case Start(name) =>
      if t.p.running then t
      else Traced(p, t.queued + StartupCommands(name), [n, n + 1, n + 2], t.pushed, |p.log.history|, true)
    case Queue(cmd) => t.(p := p, queued := t.queued + [cmd], waiting := t.waiting + [n])
    case Work(tries) =>
      if !t.p.running || t.waiting == [] then t.(p := p)
      else
        var done := t.(p := p, waiting := t.waiting[1..]);
        if Pushes(t.p, ev) then done.(pushed := t.pushed + [t.waiting[0]], keptUp := t.keptUp && HasRoom(t.p)) else done
    case _ => t.(p := p)
  }

  function Run(evs: seq<PipelineEvent>): Traced {
    if evs == [] then START else Follow(Run(evs[..|evs| - 1]), evs[|evs| - 1])
  }

  /** The same run on the real objects. */
  method RunPipeline(evs: seq<PipelineEvent>) returns (pipeline: RelayPipeline)
    ensures pipeline.Valid() && pipeline.Abs() == Run(evs).p
  {
    hide Follow, Advance, Delivered;
    pipeline := new RelayPipeline();
    for k := 0 to |evs|
      invariant pipeline.Valid() && pipeline.Abs() == Run(evs[..k]).p
      invariant fresh(pipeline) && fresh(pipeline.rawBuffer) && fresh(pipeline.rawBuffer.readers)
      invariant fresh(pipeline.rxWorker) && fresh(pipeline.rxWorker.fsm)
    {
      RunsAgree(evs[..k]);
      FollowAdvances(Run(evs[..k]), evs[k]);
      assert evs[..k + 1][..k] == evs[..k];
      pipeline.Perform(evs[k]);
    }
    assert evs[..|evs|] == evs;
  }

  /** The positions `at` spell out the commands `cmds` within `queued`. */
  predicate Spells(queued: seq<string>, at: seq<nat>, cmds: seq<string>) {
    |at| == |cmds| && forall k :: 0 <= k < |at| ==> at[k] < |queued| && queued[at[k]] == cmds[k]
  }

  function Commands(history: seq<RawDataMessage>): (cmds: seq<string>)
    ensures |cmds| == |history|
  {
    seq(|history|, i requires 0 <= i < |history| => history[i].command)
  }

  /** Queue and ring hold commands in queue order, the ring's before the queue's. */
  ghost predicate Ordered(t: Traced) {
    && Spells(t.queued, t.waiting, t.p.queue)
    && Spells(t.queued, t.pushed, Commands(t.p.log.history))
    && Increasing(t.pushed + t.waiting)
  }

  /** Only the processing worker reads, and if it kept up, it got all there was. */
  ghost predicate Delivered(t: Traced) {
    && WellFormed(t.p.log)
    && (t.p.reader.Some? ==> t.p.running)
    && (t.p.running ==> t.p.reader == Some(0) && t.p.log.slots[0].cursor.Some?)
    && (forall i :: 0 <= i < MAX_READERS && t.p.log.slots[i].cursor.Some? ==> t.p.reader == Some(i))
    && (t.p.running && t.keptUp ==>
         var c := t.p.log.slots[0].cursor.value; t.since <= c && t.p.got == t.p.log.history[t.since..c])
  }

  lemma FollowAdvances(t: Traced, ev: PipelineEvent)
    requires Spells(t.queued, t.waiting, t.p.queue)
    ensures Follow(t, ev).p == Advance(t.p, ev)
  {
  }

  lemma LaterCommand(t: Traced, queue: seq<string>, waiting: seq<nat>)
    requires Ordered(t)
    requires |queue| == |waiting| && forall k :: 0 <= k < |waiting| ==> waiting[k] == |t.queued| + k
    ensures Spells(t.queued + queue, t.waiting + waiting, t.p.queue + queue)
    ensures Spells(t.queued + queue, waiting, queue)
    ensures Spells(t.queued + queue, t.pushed, Commands(t.p.log.history))
    ensures Increasing(t.pushed + (t.waiting + waiting)) && Increasing(t.pushed + waiting)
  {
    var all := t.pushed + t.waiting;
    SpelledBelow(t);
    hide Spells, Commands, Increasing;
    SpellsOn(t.queued, queue, t.waiting, t.p.queue);
    SpellsOn(t.queued, queue, t.pushed, Commands(t.p.log.history));
    SpellsNew(t.queued, queue, waiting);
    SpellsBoth(t.queued + queue, t.waiting, t.p.queue, waiting, queue);
    LaterIncreasing(all, waiting, |t.queued|);
    LaterIncreasing(t.pushed, waiting, |t.queued|);
    Regroup(t.pushed, t.waiting, waiting);
  }

  lemma SpelledBelow(t: Traced)
    requires Ordered(t)
    ensures Increasing(t.pushed) && forall k :: 0 <= k < |t.pushed| ==> t.pushed[k] < |t.queued|
    ensures forall k :: 0 <= k < |t.pushed + t.waiting| ==> (t.pushed + t.waiting)[k] < |t.queued|
  {
    hide Commands;
    var all := t.pushed + t.waiting;
    assert forall k :: 0 <= k < |t.pushed| ==> all[k] == t.pushed[k];
    assert forall k :: 0 <= k < |t.waiting| ==> all[|t.pushed| + k] == t.waiting[k];
  }

  lemma SpellsOn(queued: seq<string>, more: seq<string>, at: seq<nat>, cmds: seq<string>)
    requires Spells(queued, at, cmds)
    ensures Spells(queued + more, at, cmds)
  {
  }

  lemma SpellsNew(queued: seq<string>, more: seq<string>, at: seq<nat>)
    requires |more| == |at| && forall k :: 0 <= k < |at| ==> at[k] == |queued| + k
    ensures Spells(queued + more, at, more)
  {
  }

  lemma SpellsBoth(queued: seq<string>, at1: seq<nat>, cmds1: seq<string>, at2: seq<nat>, cmds2: seq<string>)
    requires Spells(queued, at1, cmds1) && Spells(queued, at2, cmds2)
    ensures Spells(queued, at1 + at2, cmds1 + cmds2)
  {
  }

  lemma LaterIncreasing(at: seq<nat>, waiting: seq<nat>, n: nat)
    requires Increasing(at) && (forall k :: 0 <= k < |at| ==> at[k] < n)
    requires forall k :: 0 <= k < |waiting| ==> waiting[k] == n + k
    ensures Increasing(at + waiting)
  {
  }

  lemma WorkOrdered(t: Traced, tries: seq<Attempt>)
    requires Ordered(t) && t.p.running && t.p.queue != []
    ensures Ordered(Follow(t, Work(tries)))
  {
    hide Execute;
    var next := Follow(t, Work(tries));
    var all := t.pushed + t.waiting;
    assert t.waiting == [t.waiting[0]] + t.waiting[1..];
    assert (t.pushed + [t.waiting[0]]) + t.waiting[1..] == all;
    assert forall k :: 0 <= k < |t.waiting| - 1 ==>
      t.waiting[1..][k] == t.waiting[k + 1] && t.p.queue[1..][k] == t.p.queue[k + 1];
    if Pushes(t.p, Work(tries)) {
      assert Commands(next.p.log.history) == Commands(t.p.log.history) + [t.p.queue[0]];
    } else {
      IncreasingWithout(t.pushed, t.waiting);
      assert next.pushed == t.pushed;
    }
  }

  lemma IncreasingWithout(a: seq<nat>, b: seq<nat>)
    requires b != [] && Increasing(a + b)
    ensures Increasing(a + b[1..])
  {
    var s, r := a + b, a + b[1..];
    forall i, j | 0 <= i < j < |r|
      ensures r[i] < r[j]
    {
      var i', j' := if i < |a| then i else i + 1, if j < |a| then j else j + 1;
      assert r[i] == s[i'] && r[j] == s[j'];
    }
  }

  lemma FollowOrdered(t: Traced, ev: PipelineEvent)
    requires Ordered(t)
    ensures Ordered(Follow(t, ev))
  {
    match ev {
      case Start(name) =>
        LaterCommand(t, StartupCommands(name), [|t.queued|, |t.queued| + 1, |t.queued| + 2]);
      case Queue(cmd) => LaterCommand(t, [cmd], [|t.queued|]);
      case Work(tries) =>
        if t.p.running && t.p.queue != [] {
          WorkOrdered(t, tries);
        }
      case _ =>
    }
  }

  lemma FollowDelivered(t: Traced, ev: PipelineEvent)
    requires Ordered(t) && Delivered(t)
    ensures Delivered(Follow(t, ev))
  {
    hide Execute;
    match ev {
      case Start(name) =>
        if !t.p.running {
          FirstFreeIs(t.p.log.slots, 0);
        }
      case Work(tries) =>
        if Pushes(t.p, ev) {
          PushDelivered(t, tries);
        }
      case _ =>
    }
  }

  lemma PushDelivered(t: Traced, tries: seq<Attempt>)
    requires Ordered(t) && Delivered(t) && Pushes(t.p, Work(tries))
    ensures Delivered(Follow(t, Work(tries)))
  {
    hide Execute;
    assert t.waiting != [];
    hide Ordered;
    var c := t.p.log.slots[0].cursor.value;
    var next := Follow(t, Work(tries)).p.log;
    assert next.history[..|t.p.log.history|] == t.p.log.history;
    assert forall i :: 0 <= i < MAX_READERS ==>
      next.slots[i] == Raise(t.p.log.slots[i], |t.p.log.history| + 1 - RING_SIZE);
    if t.keptUp && HasRoom(t.p) {
      assert next.history[t.since..c] == t.p.log.history[t.since..c];
    }
  }

  lemma {:induction false} RunsAgree(evs: seq<PipelineEvent>)
    ensures Ordered(Run(evs)) && Delivered(Run(evs))
  {
    if evs != [] {
      RunsAgree(evs[..|evs| - 1]);
      FollowOrdered(Run(evs[..|evs| - 1]), evs[|evs| - 1]);
      FollowDelivered(Run(evs[..|evs| - 1]), evs[|evs| - 1]);
    }
  }

  /** Over every run, the command names in the ring history are a subsequence of the
      queue order: no queued command is in it twice, and none out of turn. */
  lemma HistoryInQueueOrder(evs: seq<PipelineEvent>)
    ensures var t := Run(evs);
      Increasing(t.pushed) && Spells(t.queued, t.pushed, Commands(t.p.log.history))
  {
    RunsAgree(evs);
    var t := Run(evs);
    forall i, j | 0 <= i < j < |t.pushed|
      ensures t.pushed[i] < t.pushed[j]
    {
      assert (t.pushed + t.waiting)[i] < (t.pushed + t.waiting)[j];
    }
  }

  /** A processing worker with fewer than 100 unread messages at every push since it
      registered sees every successful command since then exactly once, in order:
      what it got, followed by what it has still to read, is all there is. */
  lemma EndToEnd(evs: seq<PipelineEvent>)
    ensures var t := Run(evs); var log := t.p.log;
      t.p.running && t.keptUp ==>
        && t.since <= |log.history| && |log.slots| == MAX_READERS && log.slots[0].cursor.Some?
        && log.slots[0].cursor.value <= |log.history|
        && t.p.got + log.history[log.slots[0].cursor.value..] == log.history[t.since..]
        && Spells(t.queued, t.pushed, Commands(log.history)) && Increasing(t.pushed)
  {
    RunsAgree(evs);
    HistoryInQueueOrder(evs);
  }

  // ---- Single steps, told from the relay's answers -------------------------------------

  /** A worker's step takes the oldest command, and appends one message with that command
      and the relay's answer exactly if one of at most three attempts succeeds, all before
      it having been made in Operational and failed. */
  lemma WorkPushes(p: Pipeline, tries: seq<Attempt>)
    requires p.running && p.queue != []
    ensures var next := Advance(p, Work(tries));
      && next.queue == p.queue[1..]
      && (forall k: nat :: SucceedsAt(p.fsm, tries, k) ==>
            next.log.history == p.log.history + [RawDataMessage(p.queue[0], tries[k].reply.response)])
      && ((forall k: nat :: !SucceedsAt(p.fsm, tries, k)) ==> next.log == p.log)
  {
    var e := Execute(p.fsm, tries, MAX_RETRIES);
    ExecuteEndsSo(p.fsm, tries);
    EndingIff(p.fsm, tries, e);
    hide Execute, EndsSo, SucceedsAt;
    forall k: nat | SucceedsAt(p.fsm, tries, k)
      ensures k < |tries| && e.ending == Success(tries[k].reply.response)
    {
      SucceedsInside(p.fsm, tries, k);
    }
    if e.ending.Success? {
      assert e.ending == Success(e.ending.response);
    }
  }

  lemma SucceedsInside(f: Fsm, tries: seq<Attempt>, k: nat)
    requires SucceedsAt(f, tries, k)
    ensures k < |tries| && tries[k].reply.Answered?
  {
  }

  /** Starting a stopped pipeline, and the worker's first step: three commands wait, by the
      relay's name, and the machine is connecting. */
  lemma StartConnects(p: Pipeline, name: string, outcome: Outcome)
    requires !p.running
    ensures var next := Advance(Advance(p, Start(name)), Kick(true, outcome));
      && next.running && next.fsm == Fsm(Connecting, 0, outcome)
      && next.queue == ["SER 1000", "FILE DIR EVENTS", if Contains(name, "735") then "FIL DIR" else "FILE DIR SETTINGS"]
  {
    FindContains(name, "735", 0);
  }

  // ---- The reader slot --------------------------------------------------------------------

  /** While the pipeline runs its processing worker holds the first slot of the ring, and
      else none does; nobody holds any other. */
  ghost predicate OneReader(p: Pipeline) {
    && |p.log.slots| == 8
    && p.reader == (if p.running then Some(0) else None)
    && (p.log.slots[0].cursor.Some? <==> p.running)
    && forall i :: 1 <= i < 8 ==> p.log.slots[i].cursor.None?
  }

  /** In every run, however often the pipeline is stopped and started: registering never
      fails, and no slot is leaked. */
  lemma OneReaderInRun(evs: seq<PipelineEvent>)
    ensures OneReader(Run(evs).p)
  {
    hide Run, Ordered;
    RunsAgree(evs);
  }
}
