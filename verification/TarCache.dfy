/** telnet_sml_app.cpp: the TAR batch cache, filled by any number of background and
    request threads.  What a thread does under tarCacheMutex_ is one atomic step;
    the row loop in between touches nothing shared. */
module TarCache {
  import opened Wrappers
  import opened Strings

  const MAX_ATTEMPT: nat := 5

  // ---- Collecting rows ----------------------------------------------------------

  datatype Row = Row(idx: nat, data: string)

  /** Whether the relay's answer ends the row loop. */
  predicate EndsRows(response: string) {
    response == "" || Find(response, "Invalid Target", 0).Some?
  }

  /** The rows of the loop from i on; `responses` end where the loop is aborted. */
  function RowsFrom(i: nat, responses: seq<string>, limit: nat): seq<Row>
    decreases |responses|
  {
    if responses == [] || i >= limit || EndsRows(responses[0]) then []
    else [Row(i, responses[0])] + RowsFrom(i + 1, responses[1..], limit)
  }

  /** Rows number 0, 1, 2, ... without a gap, one per response used. */
  predicate Numbered(rows: seq<Row>) {
    forall k :: 0 <= k < |rows| ==> rows[k].idx == k
  }

  lemma {:induction false} RowsNumbered(i: nat, responses: seq<string>, limit: nat)
    ensures var rows := RowsFrom(i, responses, limit);
      && |rows| <= |responses| && (rows != [] ==> i + |rows| <= limit)
      && (forall k :: 0 <= k < |rows| ==> rows[k] == Row(i + k, responses[k]) && !EndsRows(responses[k]))
    decreases |responses|
  {
    if responses != [] && i < limit && !EndsRows(responses[0]) {
      RowsNumbered(i + 1, responses[1..], limit);
    }
  }

  /** The row loop from i on stopped of itself: at the limit, or at an answer that
      ends it. */
  predicate StoppedItself(i: nat, responses: seq<string>, limit: nat) {
    i + |RowsFrom(i, responses, limit)| >= limit || |RowsFrom(i, responses, limit)| < |responses|
  }

  lemma {:induction false} NoMoreRows(i: nat, responses: seq<string>, more: seq<string>, limit: nat)
    requires StoppedItself(i, responses, limit)
    ensures RowsFrom(i, responses + more, limit) == RowsFrom(i, responses, limit)
    decreases |responses|
  {
    hide EndsRows;
    if responses != [] {
      assert (responses + more)[0] == responses[0] && (responses + more)[1..] == responses[1..] + more;
      if i < limit && !EndsRows(responses[0]) {
        NoMoreRows(i + 1, responses[1..], more, limit);
      }
    }
  }

  lemma {:induction false} OneMoreAnswer(i: nat, responses: seq<string>, answer: string, limit: nat)
    requires !StoppedItself(i, responses, limit) && !EndsRows(answer)
    ensures |RowsFrom(i, responses + [answer], limit)| == |RowsFrom(i, responses, limit)| + 1
    decreases |responses|
  {
    hide EndsRows;
    RowsNumbered(i, responses, limit);
    if responses == [] {
      assert [] + [answer] == [answer] && [answer][1..] == [];
    } else {
      assert (responses + [answer])[0] == responses[0] && (responses + [answer])[1..] == responses[1..] + [answer];
      if i < limit && !EndsRows(responses[0]) {
        OneMoreAnswer(i + 1, responses[1..], answer, limit);
      }
    }
  }

  /** The rows are all there would have been, whatever the relay answered next, exactly
      if the loop stopped of itself.  An abort leaves a part. */
  lemma CompleteIff(responses: seq<string>, limit: nat)
    ensures (forall more: seq<string> :: RowsFrom(0, responses + more, limit) == RowsFrom(0, responses, limit))
      <==> StoppedItself(0, responses, limit)
  {
    hide RowsFrom, StoppedItself;
    if StoppedItself(0, responses, limit) {
      forall more: seq<string>
        ensures RowsFrom(0, responses + more, limit) == RowsFrom(0, responses, limit)
      {
        NoMoreRows(0, responses, more, limit);
      }
    } else {
      OneMoreAnswer(0, responses, "a", limit);
    }
  }

  /** escapeTarJson, character by character. */
  function EscapeTarChar(c: char): string {
    if c == '"' then "\\\"" else if c == '\\' then "\\\\"
    else if c == '\n' then "\\n" else if c == '\r' then "\\r" else if c == '\t' then "\\t"
    else if c as int < 0x20 then "\\u00" + [HexDigit(c as int / 16), HexDigit(c as int % 16)]
    else [c]
  }

  function HexDigit(d: nat): char
    requires d < 16
  {
    "0123456789abcdef"[d]
  }

  function EscapeTar(s: string): string {
    if s == "" then "" else EscapeTar(s[..|s| - 1]) + EscapeTarChar(s[|s| - 1])
  }

  method EscapeTarJson(s: string) returns (out: string)
    ensures out == EscapeTar(s)
  {
    out := "";
    for k := 0 to |s|
      invariant out == EscapeTar(s[..k])
    {
      assert s[..k + 1][..k] == s[..k];
      out := out + EscapeTarChar(s[k]);
    }
    assert s[..|s|] == s;
  }

  /** std::to_string of a non-negative int. */
  function Decimal(n: nat): string {
    (if n < 10 then "" else Decimal(n / 10)) + ["0123456789"[n % 10]]
  }

  function RowText(row: Row): string {
    "{\"idx\":" + Decimal(row.idx) + ",\"data\":\"" + EscapeTar(row.data) + "\"}"
  }

  function RowsText(rows: seq<Row>): string {
    if rows == [] then ""
    else RowsText(rows[..|rows| - 1]) + (if |rows| > 1 then "," else "") + RowText(rows[|rows| - 1])
  }

  function BatchText(relay: string, rows: seq<Row>): string {
    "TAR_BATCH_ALL:" + relay + ":[" + RowsText(rows) + "]"
  }

  /** A row appended to the batch text. */
  lemma OneMoreRow(text: string, rows: seq<Row>, row: Row)
    ensures RowsText(rows + [row]) == RowsText(rows) + (if rows != [] then "," else "") + RowText(row)
    ensures text + RowsText(rows + [row]) == (text + RowsText(rows)) + (if rows != [] then "," else "") + RowText(row)
  {
    hide RowText;
    assert (rows + [row])[..|rows|] == rows;
  }

  /** The rows still to come once i of them are taken. */
  lemma RowsUnfold(rows: seq<Row>, i: nat, responses: seq<string>, limit: nat)
    requires i <= |responses|
    ensures rows + RowsFrom(i, responses[i..], limit) ==
      if i == |responses| || i >= limit || EndsRows(responses[i]) then rows
      else (rows + [Row(i, responses[i])]) + RowsFrom(i + 1, responses[i + 1..], limit)
  {
    hide EndsRows;
    if i < |responses| {
      assert responses[i..][0] == responses[i] && responses[i..][1..] == responses[i + 1..];
      assert rows + ([Row(i, responses[i])] + RowsFrom(i + 1, responses[i + 1..], limit))
        == (rows + [Row(i, responses[i])]) + RowsFrom(i + 1, responses[i + 1..], limit);
    }
    assert rows + [] == rows;
  }

  /** The row loop of both collectors: batch is left without its closing bracket. */
  method CollectRows(relay: string, responses: seq<string>, limit: nat) returns (count: nat, batch: string)
    ensures var rows := RowsFrom(0, responses, limit);
      count == |rows| && batch + "]" == BatchText(relay, rows)
  {
    hide RowsFrom, RowsText, EndsRows;
    ghost var rows: seq<Row>;
    count, batch, rows := AppendRows("TAR_BATCH_ALL:" + relay + ":[", responses, limit);
  }

  method AppendRows(head: string, responses: seq<string>, limit: nat)
      returns (count: nat, batch: string, ghost rows: seq<Row>)
    ensures rows == RowsFrom(0, responses, limit) && count == |rows|
    ensures batch == head + RowsText(rows)
  {
    hide RowsFrom, RowText, EscapeTar, Decimal;
    batch, count, rows := head, 0, [];
    var first := true;
    assert RowsText([]) == "" && head + "" == head;
    hide RowsText;
    assert responses[0..] == responses && [] + RowsFrom(0, responses, limit) == RowsFrom(0, responses, limit);
    for i := 0 to |responses|
      invariant count == |rows| == i && (first <==> rows == [])
      invariant batch == head + RowsText(rows)
      invariant RowsFrom(0, responses, limit) == rows + RowsFrom(i, responses[i..], limit)
    {
      RowsUnfold(rows, i, responses, limit);
      if i >= limit {
        return;
      }
      var response := responses[i];
      if response == "" {
        return;
      }
      if Find(response, "Invalid Target", 0).Some? {
        return;
      }
      var entry := FormatRow(i, response);
      OneMoreRow(head, rows, Row(i, response));
      if !first {
        batch := batch + ",";
      }
      assert first ==> batch + "" == batch;
      first := false;
      batch := batch + entry;
      rows := rows + [Row(i, response)];
      count := count + 1;
    }
    RowsUnfold(rows, |responses|, responses, limit);
  }

  method FormatRow(i: nat, response: string) returns (entry: string)
    ensures entry == RowText(Row(i, response))
  {
    var escaped := EscapeTarJson(response);
    entry := "{\"idx\":" + Decimal(i) + ",\"data\":\"" + escaped + "\"}";
  }

  // ---- The protocol, on values ---------------------------------------------------

  datatype Kind = Background | Request

  datatype Phase = Waiting | Collecting(attempt: nat) | Finished | Threw

  datatype Thread = Thread(relay: string, kind: Kind, phase: Phase)

  /** The shared maps and every thread there has been; `writes` counts the times
      the cache entry of a relay was written. */
  datatype Server = Server(cache: map<string, seq<Row>>, flags: map<string, bool>, threads: map<nat, Thread>,
    writes: map<string, nat>)

  const EMPTY := Server(map[], map[], map[], map[])

  datatype Event =
    | Spawn(tid: nat, relay: string, kind: Kind)
    | BackgroundEntry(tid: nat)
    | RequestEntry(tid: nat, timedOut: bool)
    | BackgroundRound(tid: nat, responses: seq<string>, appRunning: bool)
    | RequestRound(tid: nat, responses: seq<string>)
    | RequestThrew(tid: nat)

  /** operator[] on the flag map: absent means false. */
  predicate Flag(flags: map<string, bool>, relay: string) {
    relay in flags && flags[relay]
  }

  predicate InPhase(s: Server, tid: nat, kind: Kind, collecting: bool) {
    tid in s.threads && s.threads[tid].kind == kind
    && if collecting then s.threads[tid].phase.Collecting? else s.threads[tid].phase.Waiting?
  }

  predicate Enabled(s: Server, ev: Event) {
    match ev
    case Spawn(tid, _, _) => tid !in s.threads
    case BackgroundEntry(tid) => InPhase(s, tid, Background, false)
    case RequestEntry(tid, timedOut) =>
      InPhase(s, tid, Request, false)
      && (timedOut || s.threads[tid].relay in s.cache || !Flag(s.flags, s.threads[tid].relay))
    case BackgroundRound(tid, _, _) => InPhase(s, tid, Background, true)
    case RequestRound(tid, _) => InPhase(s, tid, Request, true)
    case RequestThrew(tid) => InPhase(s, tid, Request, true)
  }

  function SetPhase(s: Server, tid: nat, phase: Phase): Server
    requires tid in s.threads
  {
    s.(threads := s.threads[tid := s.threads[tid].(phase := phase)])
  }

  function Writes(s: Server, relay: string): nat {
    if relay in s.writes then s.writes[relay] else 0
  }

  /** Cache a non-empty batch; in any case lower the flag. */
  function Publish(s: Server, tid: nat, rows: seq<Row>): Server
    requires tid in s.threads
  {
    var relay := s.threads[tid].relay;
    var stored := if rows == [] then s
      else s.(cache := s.cache[relay := rows], writes := s.writes[relay := Writes(s, relay) + 1]);
    SetPhase(stored.(flags := s.flags[relay := false]), tid, Finished)
  }

  function Step(s: Server, ev: Event, limit: string -> nat): Server
    requires Enabled(s, ev)
  {
    match ev
    case Spawn(tid, relay, kind) => s.(threads := s.threads[tid := Thread(relay, kind, Waiting)])
    case BackgroundEntry(tid) => Enter(s, tid)
    case RequestEntry(tid, _) => Enter(s, tid)
    case BackgroundRound(tid, responses, appRunning) =>
      var rows := RowsFrom(0, responses, limit(s.threads[tid].relay));
      var attempt := s.threads[tid].phase.attempt;
      if rows == [] && attempt < MAX_ATTEMPT && appRunning then SetPhase(s, tid, Collecting(attempt + 1))
      else Publish(s, tid, rows)
    case RequestRound(tid, responses) => Publish(s, tid, RowsFrom(0, responses, limit(s.threads[tid].relay)))
    case RequestThrew(tid) => SetPhase(s, tid, Threw)
  }

  /** Check and set in one locked region. */
  function Enter(s: Server, tid: nat): Server
    requires tid in s.threads
  {
    var relay := s.threads[tid].relay;
    if relay in s.cache || Flag(s.flags, relay) then SetPhase(s, tid, Finished)
    else SetPhase(s.(flags := s.flags[relay := true]), tid, Collecting(0))
  }

  // ---- The shared maps and the locked regions --------------------------------------

  /** What a request thread does after its entry. */
  datatype Entry = Serve(text: string) | Collect

  class TarServer {
    const limit: string -> nat
    var tarCache: map<string, string>
    var tarFetchInProgress: map<string, bool>
    var threads: map<nat, Thread>  // the threads with their local variables
    ghost var batches: map<string, seq<Row>>
    ghost var writes: map<string, nat>

    /** The cached text of a relay is the rendering of its batch. */
    ghost predicate Valid()
      reads this
    {
      && tarCache.Keys == batches.Keys
      && forall r :: r in tarCache ==> tarCache[r] == BatchText(r, batches[r])
    }

    ghost function Abs(): Server
      reads this
    {
      Server(batches, tarFetchInProgress, threads, writes)
    }

    constructor (limit: string -> nat)
      ensures Valid() && Abs() == EMPTY && this.limit == limit
    {
      this.limit := limit;
      tarCache, tarFetchInProgress := map[], map[];
      batches, threads, writes := map[], map[], map[];
    }

    method NewThread(tid: nat, relay: string, kind: Kind)
      requires Valid() && tid !in threads
      modifies this`threads
      ensures Valid() && Abs() == Step(old(Abs()), Spawn(tid, relay, kind), limit)
    {
      threads := threads[tid := Thread(relay, kind, Waiting)];
    }

    /** The first locked region of collectTarBackground. */
    method EnterBackground(tid: nat, relay: string) returns (collect: bool)
      requires Valid() && Enabled(Abs(), BackgroundEntry(tid)) && threads[tid].relay == relay
      modifies this
      ensures Valid() && Abs() == Step(old(Abs()), BackgroundEntry(tid), limit)
      ensures collect <==> threads[tid].phase.Collecting?
    {
      if relay in tarCache || (relay in tarFetchInProgress && tarFetchInProgress[relay]) {
        threads := threads[tid := threads[tid].(phase := Finished)];
        return false;
      }
      tarFetchInProgress := tarFetchInProgress[relay := true];
      threads := threads[tid := threads[tid].(phase := Collecting(0))];
      return true;
    }

    /** The first locked region of FETCH_ALL_TAR, past its wait. */
    method EnterRequest(tid: nat, relay: string, ghost timedOut: bool) returns (entry: Entry)
      requires Valid() && Enabled(Abs(), RequestEntry(tid, timedOut)) && threads[tid].relay == relay
      modifies this
      ensures Valid() && Abs() == Step(old(Abs()), RequestEntry(tid, timedOut), limit)
      ensures entry.Collect? <==> threads[tid].phase.Collecting?
      ensures relay in old(tarCache) ==> entry == Serve(BatchText(relay, batches[relay]))
      ensures entry.Serve? && relay !in old(tarCache) ==> entry.text == BatchText(relay, [])
    {
      if relay in tarCache {
        threads := threads[tid := threads[tid].(phase := Finished)];
        return Serve(tarCache[relay]);
      }
      if relay in tarFetchInProgress && tarFetchInProgress[relay] {
        threads := threads[tid := threads[tid].(phase := Finished)];
        return Serve("TAR_BATCH_ALL:" + relay + ":[" + "" + "]");
      }
      tarFetchInProgress := tarFetchInProgress[relay := true];
      threads := threads[tid := threads[tid].(phase := Collecting(0))];
      return Collect;
    }

    /** One attempt of the background thread, with the locked region that ends it. */
    method BackgroundAttempt(tid: nat, relay: string, attempt: nat, responses: seq<string>, appRunning: bool)
        returns (again: bool)
      requires Valid() && Enabled(Abs(), BackgroundRound(tid, responses, appRunning))
      requires threads[tid].relay == relay && threads[tid].phase.attempt == attempt
      modifies this
      ensures Valid() && Abs() == Step(old(Abs()), BackgroundRound(tid, responses, appRunning), limit)
      ensures again <==> threads[tid].phase.Collecting?
    {
      hide RowsFrom, BatchText;
      var count, batch := CollectRows(relay, responses, limit(relay));
      ghost var rows := RowsFrom(0, responses, limit(relay));
      if count == 0 {
        if attempt < MAX_ATTEMPT && appRunning {
          threads := threads[tid := threads[tid].(phase := Collecting(attempt + 1))];
          return true;
        }
        tarFetchInProgress := tarFetchInProgress[relay := false];
        threads := threads[tid := threads[tid].(phase := Finished)];
        return false;
      }
      batch := batch + "]";
      Store(relay, batch, rows);
      tarFetchInProgress := tarFetchInProgress[relay := false];
      threads := threads[tid := threads[tid].(phase := Finished)];
      return false;
    }

    /** The collection of a request thread, with the locked region that ends it. */
    method RequestCollect(tid: nat, relay: string, responses: seq<string>) returns (sent: string)
      requires Valid() && Enabled(Abs(), RequestRound(tid, responses)) && threads[tid].relay == relay
      modifies this
      ensures Valid() && Abs() == Step(old(Abs()), RequestRound(tid, responses), limit)
      ensures sent == BatchText(relay, RowsFrom(0, responses, limit(relay)))
    {
      hide RowsFrom, BatchText;
      var count, batch := CollectRows(relay, responses, limit(relay));
      sent := batch + "]";
      if count > 0 {
        Store(relay, sent, RowsFrom(0, responses, limit(relay)));
      }
      tarFetchInProgress := tarFetchInProgress[relay := false];
      threads := threads[tid := threads[tid].(phase := Finished)];
    }

    /** An exception leaves the collection of a request thread; the session layer
        swallows it, and nobody lowers the flag. */
    method RequestFailed(tid: nat)
      requires Valid() && Enabled(Abs(), RequestThrew(tid))
      modifies this`threads
      ensures Valid() && Abs() == Step(old(Abs()), RequestThrew(tid), limit)
    {
      threads := threads[tid := threads[tid].(phase := Threw)];
    }

    /** tarCache_[relayId] = batch. */
    method Store(relay: string, batch: string, ghost rows: seq<Row>)
      requires Valid() && batch == BatchText(relay, rows)
      modifies this`tarCache, this`batches, this`writes
      ensures Valid()
      ensures batches == old(batches)[relay := rows]
      ensures writes == old(writes)[relay := Writes(old(Abs()), relay) + 1]
    {
      tarCache := tarCache[relay := batch];
      writes := writes[relay := Writes(Abs(), relay) + 1];
      batches := batches[relay := rows];
    }
  }

  // ---- Runs ---------------------------------------------------------------------------

  predicate Possible(evs: seq<Event>, limit: string -> nat)
    decreases |evs|, 0
  {
    evs == [] || (Possible(evs[..|evs| - 1], limit) && Enabled(Run(evs[..|evs| - 1], limit), evs[|evs| - 1]))
  }

  function Run(evs: seq<Event>, limit: string -> nat): Server
    requires Possible(evs, limit)
    decreases |evs|, 1
  {
    if evs == [] then EMPTY else Step(Run(evs[..|evs| - 1], limit), evs[|evs| - 1], limit)
  }

  method Perform(server: TarServer, ev: Event)
    requires server.Valid() && Enabled(server.Abs(), ev)
    modifies server
    ensures server.Valid() && server.Abs() == Step(old(server.Abs()), ev, server.limit)
  {
    hide Step;
    match ev {
      case Spawn(tid, relay, kind) => server.NewThread(tid, relay, kind);
      case BackgroundEntry(tid) => var _ := server.EnterBackground(tid, server.threads[tid].relay);
      case RequestEntry(tid, timedOut) => var _ := server.EnterRequest(tid, server.threads[tid].relay, timedOut);
      case BackgroundRound(tid, responses, appRunning) =>
        var _ := server.BackgroundAttempt(tid, server.threads[tid].relay, server.threads[tid].phase.attempt, responses,
          appRunning);
      case RequestRound(tid, responses) => var _ := server.RequestCollect(tid, server.threads[tid].relay, responses);
      case RequestThrew(tid) => server.RequestFailed(tid);
    }
  }

  lemma {:induction false} PossiblePrefix(evs: seq<Event>, limit: string -> nat, k: nat)
    requires Possible(evs, limit) && k <= |evs|
    ensures Possible(evs[..k], limit)
    decreases |evs|
  {
    if k < |evs| {
      PossiblePrefix(evs[..|evs| - 1], limit, k);
      assert evs[..|evs| - 1][..k] == evs[..k];
    } else {
      assert evs[..k] == evs;
    }
  }

  /** Any interleaving of any number of threads, on the real maps. */
  method Execute(evs: seq<Event>, limit: string -> nat) returns (server: TarServer)
    requires Possible(evs, limit)
    ensures server.Valid() && server.Abs() == Run(evs, limit)
  {
    hide Step, Enabled;
    server := new TarServer(limit);
    for k := 0 to |evs|
      invariant server.Valid() && fresh(server) && server.limit == limit
      invariant Possible(evs[..k], limit) && server.Abs() == Run(evs[..k], limit)
    {
      PossiblePrefix(evs, limit, k + 1);
      assert evs[..k + 1][..k] == evs[..k];
      Perform(server, evs[k]);
    }
    assert evs[..|evs|] == evs;
  }

  predicate CollectsFor(s: Server, tid: nat, relay: string) {
    tid in s.threads && s.threads[tid].relay == relay && s.threads[tid].phase.Collecting?
  }

  /** The thread put the flag up and has not lowered it. */
  predicate HoldsFlag(s: Server, tid: nat, relay: string) {
    tid in s.threads && s.threads[tid].relay == relay
      && (s.threads[tid].phase.Collecting? || s.threads[tid].phase.Threw?)
  }

  ghost predicate Exclusive(s: Server) {
    && (forall t, u, r :: HoldsFlag(s, t, r) && HoldsFlag(s, u, r) ==> t == u)
    && (forall r :: Flag(s.flags, r) ==> exists t :: HoldsFlag(s, t, r))
    && (forall t, r :: HoldsFlag(s, t, r) ==> Flag(s.flags, r) && r !in s.cache)
    && (forall r :: Writes(s, r) == if r in s.cache then 1 else 0)
    && (forall r :: r in s.cache ==> s.cache[r] != [] && Numbered(s.cache[r]))
  }

  lemma EnterExclusive(s: Server, tid: nat)
    requires Exclusive(s) && tid in s.threads && s.threads[tid].phase.Waiting?
    ensures Exclusive(Enter(s, tid))
  {
    var relay, next := s.threads[tid].relay, Enter(s, tid);
    forall t, r | t != tid
      ensures HoldsFlag(next, t, r) <==> HoldsFlag(s, t, r)
    {
    }
    forall r | Flag(next.flags, r)
      ensures exists t :: HoldsFlag(next, t, r)
    {
      if Flag(s.flags, r) {
        var t :| HoldsFlag(s, t, r);
        assert HoldsFlag(next, t, r);
      } else {
        assert HoldsFlag(next, tid, r);
      }
    }
    assert forall r :: Writes(next, r) == Writes(s, r);
  }

  lemma PublishExclusive(s: Server, tid: nat, rows: seq<Row>)
    requires Exclusive(s) && tid in s.threads && s.threads[tid].phase.Collecting? && Numbered(rows)
    ensures Exclusive(Publish(s, tid, rows))
  {
    var relay, next := s.threads[tid].relay, Publish(s, tid, rows);
    assert HoldsFlag(s, tid, relay);
    forall t, r
      ensures HoldsFlag(next, t, r) <==> t != tid && HoldsFlag(s, t, r)
    {
    }
    forall r | Flag(next.flags, r)
      ensures exists t :: HoldsFlag(next, t, r)
    {
      assert Flag(s.flags, r) && r != relay;
      var t :| HoldsFlag(s, t, r);
      assert HoldsFlag(next, t, r);
    }
    forall r
      ensures Writes(next, r) == if r in next.cache then 1 else 0
    {
      assert Writes(s, r) == if r in s.cache then 1 else 0;
    }
  }

  lemma QuietExclusive(s: Server, next: Server)
    requires Exclusive(s) && next == s.(threads := next.threads)
    requires forall t, r :: HoldsFlag(next, t, r) <==> HoldsFlag(s, t, r)
    ensures Exclusive(next)
  {
    forall r | Flag(next.flags, r)
      ensures exists t :: HoldsFlag(next, t, r)
    {
      var t :| HoldsFlag(s, t, r);
      assert HoldsFlag(next, t, r);
    }
    assert forall r :: Writes(next, r) == Writes(s, r);
  }

  lemma StepExclusive(s: Server, ev: Event, limit: string -> nat)
    requires Exclusive(s) && Enabled(s, ev)
    ensures Exclusive(Step(s, ev, limit))
  {
    match ev {
      case Spawn(tid, relay, kind) => QuietExclusive(s, Step(s, ev, limit));
      case BackgroundEntry(tid) => EnterExclusive(s, tid);
      case RequestEntry(tid, _) => EnterExclusive(s, tid);
      case BackgroundRound(tid, responses, appRunning) =>
        var n := limit(s.threads[tid].relay);
        var rows := RowsFrom(0, responses, n);
        RowsNumbered(0, responses, n);
        if rows == [] && s.threads[tid].phase.attempt < MAX_ATTEMPT && appRunning {
          QuietExclusive(s, Step(s, ev, limit));
        } else {
          PublishExclusive(s, tid, rows);
        }
      case RequestRound(tid, responses) =>
        RowsNumbered(0, responses, limit(s.threads[tid].relay));
        PublishExclusive(s, tid, RowsFrom(0, responses, limit(s.threads[tid].relay)));
      case RequestThrew(tid) => QuietExclusive(s, Step(s, ev, limit));
    }
  }

  /** With any number of threads and any interleaving: the flag of a relay is up
      exactly while one thread holds it, never two do, its cache entry is written at
      most once, and what is cached has rows 0..count-1, at least one. */
  lemma {:induction false} RunExclusive(evs: seq<Event>, limit: string -> nat)
    requires Possible(evs, limit)
    ensures Exclusive(Run(evs, limit))
  {
    if evs != [] {
      RunExclusive(evs[..|evs| - 1], limit);
      StepExclusive(Run(evs[..|evs| - 1], limit), evs[|evs| - 1], limit);
    }
  }

  predicate SpawnedFor(evs: seq<Event>, tid: nat, relay: string) {
    exists k :: 0 <= k < |evs| && evs[k].Spawn? && evs[k].tid == tid && evs[k].relay == relay
  }

  /** Some request thread for this relay threw while collecting. */
  predicate ThrewFor(evs: seq<Event>, relay: string) {
    exists k :: 0 <= k < |evs| && evs[k].RequestThrew? && SpawnedFor(evs, evs[k].tid, relay)
  }

  /** The threads there are, and those that threw, told from the events. */
  ghost predicate Told(s: Server, evs: seq<Event>) {
    && (forall t, r :: SpawnedFor(evs, t, r) <==> t in s.threads && s.threads[t].relay == r)
    && (forall t :: RequestThrew(t) in evs <==> t in s.threads && s.threads[t].phase.Threw?)
  }

  lemma StepTold(s: Server, evs: seq<Event>, ev: Event, limit: string -> nat)
    requires Told(s, evs) && Enabled(s, ev)
    ensures Told(Step(s, ev, limit), evs + [ev])
  {
    forall t, r
      ensures SpawnedFor(evs + [ev], t, r) <==> SpawnedFor(evs, t, r) || (ev.Spawn? && ev.tid == t && ev.relay == r)
    {
      SpawnedMore(evs, ev, t, r);
    }
    hide SpawnedFor;
    forall t
      ensures t in Step(s, ev, limit).threads <==> t in s.threads || (ev.Spawn? && ev.tid == t)
      ensures t in s.threads ==> var after := Step(s, ev, limit).threads[t];
        && after.relay == s.threads[t].relay
        && (after.phase.Threw? <==> s.threads[t].phase.Threw? || ev == RequestThrew(t))
      ensures ev.Spawn? && ev.tid == t ==> Step(s, ev, limit).threads[t] == Thread(ev.relay, ev.kind, Waiting)
    {
      StepThread(s, ev, limit, t);
    }
    assert ev.RequestThrew? ==> ev.tid in s.threads;
    hide Step, Enabled;
  }

  lemma SpawnedMore(evs: seq<Event>, ev: Event, t: nat, r: string)
    ensures SpawnedFor(evs + [ev], t, r) <==> SpawnedFor(evs, t, r) || (ev.Spawn? && ev.tid == t && ev.relay == r)
  {
    if k :| 0 <= k < |evs| && evs[k].Spawn? && evs[k].tid == t && evs[k].relay == r {
      assert (evs + [ev])[k] == evs[k];
    }
    assert (evs + [ev])[|evs|] == ev;
  }

  /** What a step does to one thread. */
  lemma StepThread(s: Server, ev: Event, limit: string -> nat, t: nat)
    requires Enabled(s, ev)
    ensures t in Step(s, ev, limit).threads <==> t in s.threads || (ev.Spawn? && ev.tid == t)
    ensures t in s.threads ==> var after := Step(s, ev, limit).threads[t];
      && after.relay == s.threads[t].relay
      && (after.phase.Threw? <==> s.threads[t].phase.Threw? || ev == RequestThrew(t))
    ensures ev.Spawn? && ev.tid == t ==> Step(s, ev, limit).threads[t] == Thread(ev.relay, ev.kind, Waiting)
  {
    hide RowsFrom;
  }

  lemma {:induction false} RunTold(evs: seq<Event>, limit: string -> nat)
    requires Possible(evs, limit)
    ensures Told(Run(evs, limit), evs)
  {
    hide Told, Step, Enabled;
    if evs == [] {
      NothingTold();
    } else {
      var rest, last := evs[..|evs| - 1], evs[|evs| - 1];
      RunTold(rest, limit);
      StepTold(Run(rest, limit), rest, last, limit);
      assert rest + [last] == evs;
    }
  }

  lemma NothingTold()
    ensures Told(EMPTY, [])
  {
  }

  /** Mutual exclusion.  Two threads never collect for one relay at once, and the flag is
      up exactly while one collects, exactly as long as no request thread for that relay
      has thrown. */
  lemma MutualExclusion(evs: seq<Event>, limit: string -> nat, relay: string)
    requires Possible(evs, limit)
    ensures var s := Run(evs, limit);
      && (forall t, u :: CollectsFor(s, t, relay) && CollectsFor(s, u, relay) ==> t == u)
      && Writes(s, relay) == (if relay in s.cache then 1 else 0)
      && (relay in s.cache ==> s.cache[relay] != [] && Numbered(s.cache[relay]))
      && ((Flag(s.flags, relay) <==> exists t :: CollectsFor(s, t, relay)) <==> !ThrewFor(evs, relay))
  {
    hide Run;
    var s := Run(evs, limit);
    RunExclusive(evs, limit);
    RunTold(evs, limit);
    assert forall t :: CollectsFor(s, t, relay) ==> HoldsFlag(s, t, relay);
    if ThrewFor(evs, relay) {
      var k :| 0 <= k < |evs| && evs[k].RequestThrew? && SpawnedFor(evs, evs[k].tid, relay);
      var thrower := evs[k].tid;
      assert evs[k] == RequestThrew(thrower) && RequestThrew(thrower) in evs;
      assert HoldsFlag(s, thrower, relay) && !CollectsFor(s, thrower, relay);
    } else if Flag(s.flags, relay) {
      var t :| HoldsFlag(s, t, relay);
      assert SpawnedFor(evs, t, relay);
      assert forall k :: 0 <= k < |evs| && evs[k].RequestThrew? ==> evs[k].tid != t;
      assert CollectsFor(s, t, relay);
    }
  }

  /** Once a request thread has thrown while collecting, the flag of its relay stays up
      for good: nobody collects for it any more and it is never cached. */
  lemma StuckForGood(evs: seq<Event>, limit: string -> nat, k: nat)
    requires Possible(evs, limit) && k < |evs| && evs[k].RequestThrew? && Possible(evs[..k], limit)
    requires evs[k].tid in Run(evs[..k], limit).threads
    ensures var s := Run(evs, limit); var relay := Run(evs[..k], limit).threads[evs[k].tid].relay;
      Flag(s.flags, relay) && relay !in s.cache && forall t :: !CollectsFor(s, t, relay)
  {
    hide Run;
    var s, tid := Run(evs, limit), evs[k].tid;
    var relay := Run(evs[..k], limit).threads[tid].relay;
    RunExclusive(evs, limit);
    ThrownStays(evs, limit, k);
    assert HoldsFlag(s, tid, relay);
    assert forall t :: CollectsFor(s, t, relay) ==> HoldsFlag(s, t, relay);
  }

  lemma {:induction false} ThrownStays(evs: seq<Event>, limit: string -> nat, k: nat)
    requires Possible(evs, limit) && k < |evs| && evs[k].RequestThrew? && Possible(evs[..k], limit)
    requires evs[k].tid in Run(evs[..k], limit).threads
    ensures evs[k].tid in Run(evs, limit).threads
    ensures Run(evs, limit).threads[evs[k].tid] == Run(evs[..k], limit).threads[evs[k].tid].(phase := Threw)
    decreases |evs|
  {
    var rest, last := evs[..|evs| - 1], evs[|evs| - 1];
    assert rest[..k] == evs[..k];
    if k < |evs| - 1 {
      hide Step;
      ThrownStays(rest, limit, k);
      ThrownKept(Run(rest, limit), last, limit, evs[k].tid);
    } else {
      assert rest == evs[..k];
    }
  }

  lemma ThrownKept(s: Server, ev: Event, limit: string -> nat, tid: nat)
    requires Enabled(s, ev) && tid in s.threads && s.threads[tid].phase.Threw?
    ensures tid in Step(s, ev, limit).threads && Step(s, ev, limit).threads[tid] == s.threads[tid]
  {
    hide RowsFrom;
  }

  /** A cached batch never changes again. */
  lemma {:induction false} CachedForGood(evs: seq<Event>, limit: string -> nat, k: nat, relay: string)
    requires Possible(evs, limit) && k <= |evs| && Possible(evs[..k], limit) && relay in Run(evs[..k], limit).cache
    ensures relay in Run(evs, limit).cache && Run(evs, limit).cache[relay] == Run(evs[..k], limit).cache[relay]
    decreases |evs|
  {
    if k == |evs| {
      assert evs[..k] == evs;
    } else {
      var rest, ev := evs[..|evs| - 1], evs[|evs| - 1];
      assert rest[..k] == evs[..k];
      CachedForGood(rest, limit, k, relay);
      RunExclusive(rest, limit);
      StepKeepsCache(Run(rest, limit), ev, limit, relay);
    }
  }

  lemma StepKeepsCache(s: Server, ev: Event, limit: string -> nat, relay: string)
    requires Exclusive(s) && Enabled(s, ev) && relay in s.cache
    ensures relay in Step(s, ev, limit).cache && Step(s, ev, limit).cache[relay] == s.cache[relay]
  {
    hide RowsFrom;
    if ev.BackgroundRound? || ev.RequestRound? {
      assert HoldsFlag(s, ev.tid, s.threads[ev.tid].relay);
    }
  }

  // ---- Runs on which it happens ---------------------------------------------------------

  lemma OneMore(evs: seq<Event>, limit: string -> nat, ev: Event)
    requires Possible(evs, limit) && Enabled(Run(evs, limit), ev)
    ensures Possible(evs + [ev], limit) && Run(evs + [ev], limit) == Step(Run(evs, limit), ev, limit)
  {
    assert (evs + [ev])[..|evs|] == evs;
  }

  /** A request thread starts to collect for a relay nobody has asked for yet. */
  lemma FirstRequest(relay: string, limit: string -> nat)
    ensures var evs := [Spawn(0, relay, Request), RequestEntry(0, false)];
      && Possible(evs, limit)
      && Run(evs, limit) == Server(map[], map[relay := true], map[0 := Thread(relay, Request, Collecting(0))], map[])
  {
    hide RowsFrom;
    var e1 := [Spawn(0, relay, Request)];
    assert [] + [Spawn(0, relay, Request)] == e1;
    OneMore([], limit, Spawn(0, relay, Request));
    assert e1 + [RequestEntry(0, false)] == [Spawn(0, relay, Request), RequestEntry(0, false)];
    OneMore(e1, limit, RequestEntry(0, false));
  }

  /** A possible run after which the flag is up and nobody collects. */
  lemma ThrowLeavesFlag(relay: string, limit: string -> nat)
    ensures var evs := [Spawn(0, relay, Request), RequestEntry(0, false), RequestThrew(0)];
      && Possible(evs, limit)
      && Flag(Run(evs, limit).flags, relay) && forall t :: !CollectsFor(Run(evs, limit), t, relay)
  {
    hide RowsFrom;
    var e2 := [Spawn(0, relay, Request), RequestEntry(0, false)];
    FirstRequest(relay, limit);
    hide Run;
    assert e2 + [RequestThrew(0)] == [Spawn(0, relay, Request), RequestEntry(0, false), RequestThrew(0)];
    OneMore(e2, limit, RequestThrew(0));
  }

  /** A possible run after which a part of a relay's rows is cached: the loop was
      aborted after one answer, short of the limit. */
  lemma AbortCachesPart(relay: string, limit: string -> nat)
    requires limit(relay) > 1
    ensures var evs := [Spawn(0, relay, Request), RequestEntry(0, false), RequestRound(0, ["a"])];
      && Possible(evs, limit)
      && Run(evs, limit).cache == map[relay := [Row(0, "a")]]
      && !StoppedItself(0, ["a"], limit(relay))
  {
    var e2 := [Spawn(0, relay, Request), RequestEntry(0, false)];
    FirstRequest(relay, limit);
    hide Run;
    assert ["a"][1..] == [];
    assert !EndsRows("a");
    assert RowsFrom(0, ["a"], limit(relay)) == [Row(0, "a")];
    assert e2 + [RequestRound(0, ["a"])] == [Spawn(0, relay, Request), RequestEntry(0, false), RequestRound(0, ["a"])];
    OneMore(e2, limit, RequestRound(0, ["a"]));
  }
}
