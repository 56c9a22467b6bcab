/** What a step of the TAR protocol comes to, over every run, told from the relay's
    answers and the events alone. */
module TarRuns {
  import opened Strings
  import opened TarCache

  // ---- The rows ---------------------------------------------------------------------

  /** The relay has no more rows. */
  ghost predicate Ending(answer: string) {
    answer == "" || Contains(answer, "Invalid Target")
  }

  lemma EndingIff(answer: string)
    ensures EndsRows(answer) <==> Ending(answer)
  {
    FindContains(answer, "Invalid Target", 0);
  }

  /** The loop takes the first n answers: they are rows, there are no more than the limit
      allows, and behind them the answers run out, the limit is reached, or one ends it. */
  ghost predicate Takes(responses: seq<string>, limit: nat, n: nat) {
    && n <= |responses| && n <= limit
    && (forall j :: 0 <= j < n ==> !Ending(responses[j]))
    && (n == |responses| || n == limit || Ending(responses[n]))
  }

  function FirstRows(responses: seq<string>, n: nat): (rows: seq<Row>)
    requires n <= |responses|
    ensures |rows| == n
  {
    seq(n, j requires 0 <= j < n => Row(j, responses[j]))
  }

  lemma {:induction false} RowsMaximal(i: nat, responses: seq<string>, limit: nat)
    ensures var n := |RowsFrom(i, responses, limit)|;
      n <= |responses| && (n == |responses| || i + n >= limit || EndsRows(responses[n]))
    decreases |responses|
  {
    hide EndsRows;
    if responses != [] && i < limit && !EndsRows(responses[0]) {
      RowsMaximal(i + 1, responses[1..], limit);
    }
  }

  lemma RowsTaken(responses: seq<string>, limit: nat, n: nat)
    requires Takes(responses, limit, n)
    ensures RowsFrom(0, responses, limit) == FirstRows(responses, n)
  {
    hide RowsFrom, EndsRows, Ending;
    RowsNumbered(0, responses, limit);
    RowsMaximal(0, responses, limit);
    forall j | 0 <= j < |responses|
      ensures EndsRows(responses[j]) <==> Ending(responses[j])
    {
      EndingIff(responses[j]);
    }
  }

  // ---- The rounds -------------------------------------------------------------------------

  /** How many attempts a background thread has made. */
  function Rounds(evs: seq<Event>, tid: nat): nat {
    if evs == [] then 0
    else
      var last := evs[|evs| - 1];
      Rounds(evs[..|evs| - 1], tid) + if last.BackgroundRound? && last.tid == tid then 1 else 0
  }

  /** A thread's attempt counter is the number of its rounds. */
  ghost predicate Counted(s: Server, evs: seq<Event>) {
    forall t :: (t in s.threads && s.threads[t].phase.Collecting? && s.threads[t].kind == Background ==>
                   s.threads[t].phase.attempt == Rounds(evs, t))
             && (t in s.threads && s.threads[t].phase.Waiting? ==> Rounds(evs, t) == 0)
             && (t !in s.threads ==> Rounds(evs, t) == 0)
  }

  lemma StepCounted(s: Server, evs: seq<Event>, ev: Event, limit: string -> nat)
    requires Counted(s, evs) && Enabled(s, ev)
    ensures Counted(Step(s, ev, limit), evs + [ev])
  {
    hide RowsFrom;
    assert (evs + [ev])[..|evs|] == evs;
    assert forall t :: Rounds(evs + [ev], t) == Rounds(evs, t) + if ev.BackgroundRound? && ev.tid == t then 1 else 0;
  }

  lemma {:induction false} RunCounted(evs: seq<Event>, limit: string -> nat)
    requires Possible(evs, limit)
    ensures Counted(Run(evs, limit), evs)
  {
    hide Counted, Step, Enabled;
    if evs == [] {
      NoneCounted();
    } else {
      var rest, last := evs[..|evs| - 1], evs[|evs| - 1];
      RunCounted(rest, limit);
      StepCounted(Run(rest, limit), rest, last, limit);
      assert rest + [last] == evs;
    }
  }

  lemma NoneCounted()
    ensures Counted(EMPTY, [])
  {
  }

  /** A round of collecting, after any possible run.  Rows are cached, all those taken and
      no others, and the flag is down.  Without rows nothing is cached; a background
      thread that has made at most five attempts in a running app goes on, with its flag
      up, and any other has lowered it. */
  lemma RoundResult(evs: seq<Event>, limit: string -> nat, ev: Event, n: nat)
    requires Possible(evs + [ev], limit) && (ev.BackgroundRound? || ev.RequestRound?)
    requires Possible(evs, limit) && ev.tid in Run(evs, limit).threads
    requires Takes(ev.responses, limit(Run(evs, limit).threads[ev.tid].relay), n)
    ensures var before, after := Run(evs, limit), Run(evs + [ev], limit);
      var relay := before.threads[ev.tid].relay;
        var again := ev.BackgroundRound? && ev.appRunning && Rounds(evs + [ev], ev.tid) <= 5;
      && ev.tid in after.threads
      && (n > 0 ==> after.cache == before.cache[relay := FirstRows(ev.responses, n)])
      && (n == 0 ==> after.cache == before.cache)
      && (if n == 0 && again then after.threads[ev.tid].phase.Collecting? && Flag(after.flags, relay)
          else after.threads[ev.tid].phase.Finished? && !Flag(after.flags, relay))
  {
    var relay := Run(evs, limit).threads[ev.tid].relay;
    RowsTaken(ev.responses, limit(relay), n);
    RunCounted(evs, limit);
    RunExclusive(evs, limit);
    assert (evs + [ev])[..|evs|] == evs;
    assert Rounds(evs + [ev], ev.tid) == Rounds(evs, ev.tid) + if ev.BackgroundRound? then 1 else 0;
    hide RowsFrom, FirstRows, Takes, Rounds;
    assert HoldsFlag(Run(evs, limit), ev.tid, relay);
  }

  /** An entry, after any possible run: the thread collects, with the flag up, exactly if
      its relay is neither cached nor flagged; nothing is cached by it. */
  lemma EntryResult(evs: seq<Event>, limit: string -> nat, ev: Event)
    requires Possible(evs + [ev], limit) && (ev.BackgroundEntry? || ev.RequestEntry?)
    requires Possible(evs, limit) && ev.tid in Run(evs, limit).threads
    ensures var before, after := Run(evs, limit), Run(evs + [ev], limit);
      var relay := before.threads[ev.tid].relay;
      && after.cache == before.cache && ev.tid in after.threads
      && (if relay in before.cache || Flag(before.flags, relay)
          then after.threads[ev.tid].phase.Finished? && after.flags == before.flags
          else after.threads[ev.tid].phase.Collecting? && after.flags == before.flags[relay := true])
  {
    assert (evs + [ev])[..|evs|] == evs;
  }
}
