/**
 Starting and stopping the shared clients. Each call may work, fail with an ordinary error, or be
 cancelled (a `BaseException`); the stack of started clients and the record of the calls are the state.
 */
module Lifecycle {
  import opened Common

  /** A client, by its place among the resources. */
  type Client = nat

  datatype Outcome = Done | Error | Cancelled

  /** The calls made, in order: on clients, and the callbacks of the lifespan by number. */
  datatype Event =
    | StartCall(client: Client, outcome: Outcome)
    | StopCall(client: Client, outcome: Outcome)
    | Callback(index: nat, outcome: Outcome)

  /** What the n-th call made in the life of the core comes to. */
  type Script = nat -> Outcome

  // ---------------------------------------------------------------- what a record of calls means

  /** The open clients after one more call; a stop is only right for the one started last. */
  function Effect(open: seq<Client>, e: Event): Option<seq<Client>> {
    match e
    case StartCall(client, outcome) => Some(if outcome.Done? then open + [client] else open)
    case StopCall(client, _) =>
      if open != [] && open[|open| - 1] == client then Some(open[..|open| - 1]) else None
    case Callback(_, _) => Some(open)
  }

  /** The clients that are open after these calls, in the order of starting. */
  function Open(log: seq<Event>): Option<seq<Client>> {
    if log == [] then Some([]) else
    var open := Open(log[..|log| - 1]);
    if open.None? then None else Effect(open.value, log[|log| - 1])
  }

  /** The clients whose start completed, in order. */
  function Completed(log: seq<Event>): seq<Client> {
    if log == [] then [] else
    var before, e := Completed(log[..|log| - 1]), log[|log| - 1];
    if e.StartCall? && e.outcome.Done? then before + [e.client] else before
  }

  /** The clients that were told to stop, in order. */
  function Stopped(log: seq<Event>): seq<Client> {
    if log == [] then [] else
    var before, e := Stopped(log[..|log| - 1]), log[|log| - 1];
    if e.StopCall? then before + [e.client] else before
  }

  function Reverse(s: seq<Client>): seq<Client> {
    if s == [] then [] else [s[|s| - 1]] + Reverse(s[..|s| - 1])
  }

  lemma Append(log: seq<Event>, e: Event)
    ensures Open(log + [e]) == if Open(log).None? then None else Effect(Open(log).value, e)
    ensures Completed(log + [e]) ==
            if e.StartCall? && e.outcome.Done? then Completed(log) + [e.client] else Completed(log)
    ensures Stopped(log + [e]) == if e.StopCall? then Stopped(log) + [e.client] else Stopped(log)
  {
    assert (log + [e])[..|log|] == log;
  }

  /** Every completed start has been answered by one stop, or its client is still open: none is stopped twice. */
  lemma {:induction false} StopsMatchStarts(log: seq<Event>)
    requires Open(log).Some?
    ensures multiset(Stopped(log)) + multiset(Open(log).value) == multiset(Completed(log))
  {
    if log == [] {
    } else {
      var before, e := log[..|log| - 1], log[|log| - 1];
      StopsMatchStarts(before);
      var open := Open(before).value;
      if e.StopCall? {
        assert open == open[..|open| - 1] + [e.client];
        assert multiset(Stopped(log)) == multiset(Stopped(before)) + multiset{e.client};
      } else if e.StartCall? && e.outcome.Done? {
        assert multiset(open + [e.client]) == multiset(open) + multiset{e.client};
        assert multiset(Completed(log)) == multiset(Completed(before)) + multiset{e.client};
      }
    }
  }

  // ---------------------------------------------------------------- calls made one after the other

  /** The calls up to and with the first whose outcome is one of `ends`. */
  function Through(calls: seq<Event>, ends: set<Outcome>): (made: seq<Event>)
    ensures |made| <= |calls|
  {
    if calls == [] then []
    else [calls[0]] + if calls[0].outcome in ends then [] else Through(calls[1..], ends)
  }

  lemma {:induction false} ThroughIs(calls: seq<Event>, ends: set<Outcome>, n: nat)
    requires n <= |calls| && forall i :: 0 <= i < n - 1 ==> calls[i].outcome !in ends
    requires n == |calls| || (n > 0 && calls[n - 1].outcome in ends)
    ensures Through(calls, ends) == calls[..n]
  {
    if n == 0 {
    } else {
      assert calls[..n] == [calls[0]] + calls[1..][..n - 1];
      if calls[0].outcome !in ends {
        ThroughIs(calls[1..], ends, n - 1);
      }
    }
  }

  /** Either all the calls are made, or the last one made is one of `ends`. */
  lemma {:induction false} ThroughIsPrefix(calls: seq<Event>, ends: set<Outcome>)
    ensures var made := Through(calls, ends);
            && made == calls[..|made|]
            && (|made| < |calls| ==> made != [] && made[|made| - 1].outcome in ends)
            && forall i :: 0 <= i < |made| - 1 ==> made[i].outcome !in ends
  {
    if calls == [] {
    } else {
      ThroughIsPrefix(calls[1..], ends);
      var made := Through(calls, ends);
      if calls[0].outcome !in ends {
        assert made[1..] == Through(calls[1..], ends);
        assert calls[..|made|] == [calls[0]] + calls[1..][..|made| - 1];
        forall i | 0 <= i < |made| - 1
          ensures made[i].outcome !in ends
        {
          if i > 0 {
            assert made[i] == made[1..][i - 1];
          }
        }
      }
    }
  }

  const FAILED: set<Outcome> := {Error, Cancelled}
  const CANCELLED: set<Outcome> := {Cancelled}

  /** The outcome of the last call, when there was one. */
  function Last(made: seq<Event>): Outcome {
    if made == [] then Done else made[|made| - 1].outcome
  }

  function AllStarts(clients: seq<Client>, script: Script, at: nat): seq<Event> {
    seq(|clients|, (i: int) requires 0 <= i < |clients| => StartCall(clients[i], script(at + i)))
  }

  /** From the last started on. */
  function AllStops(open: seq<Client>, script: Script, at: nat): seq<Event> {
    seq(|open|, (i: int) requires 0 <= i < |open| => StopCall(open[|open| - 1 - i], script(at + i)))
  }

  function AllCallbacks(count: nat, script: Script, at: nat): seq<Event> {
    seq(count, (i: int) requires 0 <= i < count => Callback(i, script(at + i)))
  }

  /** `start`: to the first client that does not start. */
  function Starts(clients: seq<Client>, script: Script, at: nat): seq<Event> {
    Through(AllStarts(clients, script, at), FAILED)
  }

  /** `stop`: an ordinary error does not end it. */
  function Stops(open: seq<Client>, script: Script, at: nat): seq<Event> {
    Through(AllStops(open, script, at), CANCELLED)
  }

  function Callbacks(count: nat, script: Script, at: nat): seq<Event> {
    Through(AllCallbacks(count, script, at), CANCELLED)
  }

  ghost predicate IsStopOf(stops: seq<Event>, open: seq<Client>) {
    && |stops| <= |open|
    && forall i :: 0 <= i < |stops| ==> stops[i].StopCall? && stops[i].client == open[|open| - 1 - i]
  }

  /** Clients that are told to stop from the last on are no longer open. */
  lemma {:induction false} StopsAppend(log: seq<Event>, stops: seq<Event>, open: seq<Client>)
    requires Open(log) == Some(open) && IsStopOf(stops, open)
    ensures Open(log + stops) == Some(open[..|open| - |stops|])
  {
    if stops == [] {
      assert log + stops == log && open[..|open|] == open;
    } else {
      var n := |stops| - 1;
      StopsAppend(log, stops[..n], open);
      Append(log + stops[..n], stops[n]);
      LastApart(log, stops);
      var left := open[..|open| - n];
      assert left[..|left| - 1] == open[..|open| - |stops|];
    }
  }

  lemma LastApart(log: seq<Event>, more: seq<Event>)
    requires more != []
    ensures log + more == log + more[..|more| - 1] + [more[|more| - 1]]
  {
  }

  /** They were stopped in the reverse of the order of starting. */
  lemma {:induction false} StoppedInReverse(log: seq<Event>, stops: seq<Event>, open: seq<Client>)
    requires IsStopOf(stops, open)
    ensures Stopped(log + stops) == Stopped(log) + Reverse(open[|open| - |stops|..])
  {
    if stops == [] {
      assert log + stops == log && open[|open|..] == [];
    } else {
      var n, k := |stops| - 1, |open| - |stops|;
      StoppedInReverse(log, stops[..n], open);
      Append(log + stops[..n], stops[n]);
      LastApart(log, stops);
      ReverseGrows(open, k);
      Associate(Stopped(log), Reverse(open[k + 1..]), [open[k]]);
    }
  }

  lemma Associate(a: seq<Client>, b: seq<Client>, c: seq<Client>)
    ensures a + b + c == a + (b + c)
  {
  }

  lemma {:induction false} StopsStartNobody(log: seq<Event>, stops: seq<Event>)
    requires forall i :: 0 <= i < |stops| ==> stops[i].StopCall?
    ensures Completed(log + stops) == Completed(log)
  {
    if stops == [] {
      assert log + stops == log;
    } else {
      StopsStartNobody(log, stops[..|stops| - 1]);
      Append(log + stops[..|stops| - 1], stops[|stops| - 1]);
      LastApart(log, stops);
    }
  }

  lemma {:induction false} ReverseGrows(s: seq<Client>, k: nat)
    requires k < |s|
    ensures Reverse(s[k..]) == Reverse(s[k + 1..]) + [s[k]]
    decreases |s|
  {
    var front := s[..|s| - 1];
    if k < |s| - 1 {
      ReverseGrows(front, k);
      assert s[k..][..|s[k..]| - 1] == front[k..];
      assert s[k + 1..][..|s[k + 1..]| - 1] == front[k + 1..];
    } else {
      assert s[k..] == [s[k]] && s[k + 1..] == [] && s[k..][..0] == [];
    }
  }

  lemma {:induction false} StartsAppend(log: seq<Event>, starts: seq<Event>, open: seq<Client>)
    requires Open(log) == Some(open)
    requires forall i :: 0 <= i < |starts| ==> starts[i].StartCall?
    ensures Open(log + starts) == Some(open + Completed(starts))
  {
    if starts == [] {
      assert log + starts == log && open + [] == open;
    } else {
      var n := |starts| - 1;
      StartsAppend(log, starts[..n], open);
      Append(log + starts[..n], starts[n]);
      LastApart(log, starts);
      var before := Completed(starts[..n]);
      assert open + (before + [starts[n].client]) == open + before + [starts[n].client];
    }
  }

  lemma {:induction false} StartsStopNobody(starts: seq<Event>)
    requires forall i :: 0 <= i < |starts| ==> starts[i].StartCall?
    ensures Stopped(starts) == []
  {
    if starts == [] {
    } else {
      StartsStopNobody(starts[..|starts| - 1]);
    }
  }

  lemma {:induction false} CallbacksAppend(log: seq<Event>, calls: seq<Event>)
    requires forall i :: 0 <= i < |calls| ==> calls[i].Callback?
    ensures Open(log + calls) == Open(log)
    ensures Stopped(log + calls) == Stopped(log) && Completed(log + calls) == Completed(log)
  {
    if calls == [] {
      assert log + calls == log;
    } else {
      var n := |calls| - 1;
      CallbacksAppend(log, calls[..n]);
      Append(log + calls[..n], calls[n]);
      LastApart(log, calls);
    }
  }

  /** How many clients are open after `n` starts of which the last came to `last`. */
  function Opened(n: nat, last: Outcome): (k: nat)
    ensures k <= n
  {
    if last.Done? || n == 0 then n else n - 1
  }

  /** The clients that a `start` opens: those before the one that failed. */
  lemma {:induction false} CompletedAreFirst(starts: seq<Event>, clients: seq<Client>)
    requires |starts| <= |clients|
    requires forall i :: 0 <= i < |starts| ==> starts[i].StartCall? && starts[i].client == clients[i]
    requires forall i :: 0 <= i < |starts| - 1 ==> starts[i].outcome.Done?
    ensures Completed(starts) == clients[..Opened(|starts|, Last(starts))]
  {
    if starts == [] {
    } else {
      CompletedAreFirst(starts[..|starts| - 1], clients);
    }
  }

  lemma StartsShape(clients: seq<Client>, script: Script, at: nat)
    ensures var starts := Starts(clients, script, at);
            forall i :: 0 <= i < |starts| ==> starts[i].StartCall?
  {
    ThroughIsPrefix(AllStarts(clients, script, at), FAILED);
  }

  /** No stop of an open client is cancelled, the one of the client that was started first apart. */
  predicate Uncancelled(open: seq<Client>, script: Script, at: nat) {
    forall n: nat :: at <= n < at + |open| - 1 ==> script(n) != Cancelled
  }

  /** Ordinary errors skip nobody: all open clients are told to stop iff no stop but the last is cancelled. */
  lemma ErrorsSkipNobody(open: seq<Client>, script: Script, at: nat)
    ensures IsStopOf(Stops(open, script, at), open)
    ensures |Stops(open, script, at)| == |open| <==> Uncancelled(open, script, at)
  {
    var all, stops := AllStops(open, script, at), Stops(open, script, at);
    ThroughIsPrefix(all, CANCELLED);
    if |stops| < |open| {
      var n := |stops| - 1;
      assert all[n] == stops[n] && script(at + n) == Cancelled;
    } else {
      forall n: nat | at <= n < at + |open| - 1
        ensures script(n) != Cancelled
      {
        assert stops[n - at] == all[n - at];
      }
    }
  }

  lemma CallbacksShape(count: nat, script: Script, at: nat)
    ensures var calls := Callbacks(count, script, at);
            forall i :: 0 <= i < |calls| ==> calls[i].Callback?
  {
    ThroughIsPrefix(AllCallbacks(count, script, at), CANCELLED);
  }

  // ---------------------------------------------------------------- what each operation leaves

  /** The calls made so far, and the stack of the core. */
  datatype Record = Record(log: seq<Event>, started: seq<Client>)

  function StopsOf(r: Record, script: Script): seq<Event> {
    Stops(r.started, script, |r.log|)
  }

  function AfterStop(r: Record, script: Script): Record {
    var stops := StopsOf(r, script);
    Record(r.log + stops, r.started[..|r.started| - |stops|])
  }

  /** The loop of `start`. */
  function AfterStarts(r: Record, clients: seq<Client>, script: Script): Record {
    var starts := Starts(clients, script, |r.log|);
    Record(r.log + starts, r.started + Completed(starts))
  }

  function AllStarted(r: Record, clients: seq<Client>, script: Script): bool {
    Last(Starts(clients, script, |r.log|)).Done?
  }

  function AfterStart(r: Record, clients: seq<Client>, script: Script): Record {
    var s := AfterStarts(r, clients, script);
    if AllStarted(r, clients, script) then s else AfterStop(s, script)
  }

  function AfterCallbacks(r: Record, count: nat, script: Script): Record {
    r.(log := r.log + Callbacks(count, script, |r.log|))
  }

  function AfterShutdown(r: Record, callbacks: nat, script: Script): Record {
    var s := AfterStop(r, script);
    if Last(StopsOf(r, script)).Cancelled? then s else AfterCallbacks(s, callbacks, script)
  }

  predicate ShutdownRaises(r: Record, callbacks: nat, script: Script) {
    || Last(StopsOf(r, script)).Cancelled?
    || Last(Callbacks(callbacks, script, |AfterStop(r, script).log|)).Cancelled?
  }

  function AfterLifespan(r: Record, clients: seq<Client>, callbacks: nat, script: Script): Record {
    var s := AfterStart(r, clients, script);
    if AllStarted(r, clients, script) then AfterShutdown(s, callbacks, script) else s
  }

  function Raised(made: seq<Event>, otherwise: Outcome): Outcome {
    if Last(made).Cancelled? then Cancelled else otherwise
  }

  class Core {
    const clients: seq<Client>
    const script: Script
    var started: seq<Client>
    var log: seq<Event>

    function Now(): Record
      reads this
    {
      Record(log, started)
    }

    constructor (clients: seq<Client>, script: Script)
      ensures this.clients == clients && this.script == script && Now() == Record([], [])
    {
      this.clients, this.script := clients, script;
      started, log := [], [];
    }

    method StartClient(client: Client) returns (outcome: Outcome)
      modifies this`log
      ensures outcome == script(|old(log)|) && log == old(log) + [StartCall(client, outcome)]
    {
      outcome := script(|log|);
      log := log + [StartCall(client, outcome)];
    }

    method StopClient(client: Client) returns (outcome: Outcome)
      modifies this`log
      ensures outcome == script(|old(log)|) && log == old(log) + [StopCall(client, outcome)]
    {
      outcome := script(|log|);
      log := log + [StopCall(client, outcome)];
    }

    method RunCallback(index: nat) returns (outcome: Outcome)
      modifies this`log
      ensures outcome == script(|old(log)|) && log == old(log) + [Callback(index, outcome)]
    {
      outcome := script(|log|);
      log := log + [Callback(index, outcome)];
    }

    /** `stop`; `outcome` is Done, or Cancelled if it raised. */
    method Stop() returns (outcome: Outcome)
      modifies this
      ensures Now() == AfterStop(old(Now()), script)
      ensures outcome == Raised(StopsOf(old(Now()), script), Done)
      ensures outcome.Done? ==> started == []
    {
      ghost var open, all := started, AllStops(started, script, |log|);
      ghost var i := 0;
      outcome := Done;
      while started != [] && outcome.Done?
        invariant i <= |all| && started == open[..|open| - i]
        invariant log == old(log) + all[..i]
        invariant forall j :: 0 <= j < i - 1 ==> !all[j].outcome.Cancelled?
        invariant outcome == if i > 0 && all[i - 1].outcome.Cancelled? then Cancelled else Done
        decreases |started|, outcome.Done?
      {
        var client := started[|started| - 1];
        started := started[..|started| - 1];
        var stopped := StopClient(client);
        assert all[..i + 1] == all[..i] + [all[i]];
        i := i + 1;
        if stopped.Cancelled? {
          outcome := Cancelled;
        }
      }
      ThroughIs(all, CANCELLED, i);
    }

    /** The loop of `start`; `outcome` is that of its last call. */
    method StartAll() returns (outcome: Outcome)
      modifies this
      ensures Now() == AfterStarts(old(Now()), clients, script)
      ensures outcome == Last(Starts(clients, script, |old(log)|))
      ensures outcome.Done? ==> started == old(started) + clients
    {
      ghost var all := AllStarts(clients, script, |log|);
      var i := 0;
      outcome := Done;
      while i < |clients| && outcome.Done?
        invariant i <= |all| && log == old(log) + all[..i]
        invariant forall j :: 0 <= j < i - 1 ==> all[j].outcome.Done?
        invariant outcome == if i > 0 then all[i - 1].outcome else Done
        invariant i == 0 ==> outcome.Done?
        invariant started == old(started) + clients[..Opened(i, outcome)]
      {
        outcome := StartClient(clients[i]);
        assert all[..i + 1] == all[..i] + [all[i]];
        if outcome.Done? {
          started := started + [clients[i]];
        }
        i := i + 1;
      }
      ThroughIs(all, FAILED, i);
      CompletedAreFirst(all[..i], clients);
      assert clients[..|clients|] == clients;
    }

    /** `start`; `outcome` is Done, or what it raised. */
    method Start() returns (outcome: Outcome)
      modifies this
      ensures Now() == AfterStart(old(Now()), clients, script)
      ensures outcome.Done? <==> AllStarted(old(Now()), clients, script)
      ensures outcome.Done? ==> started == old(started) + clients
      ensures !outcome.Done? ==>
                var s := AfterStarts(old(Now()), clients, script);
                && outcome == Raised(StopsOf(s, script), Last(Starts(clients, script, |old(log)|)))
                && (Last(StopsOf(s, script)).Cancelled? || started == [])
    {
      outcome := StartAll();
      if !outcome.Done? {
        var stopped := Stop();
        if stopped.Cancelled? {
          outcome := Cancelled;
        }
      }
    }

    /** The callbacks of the lifespan, to the first that is cancelled. */
    method RunCallbacks(count: nat) returns (outcome: Outcome)
      modifies this`log
      ensures Now() == AfterCallbacks(old(Now()), count, script)
      ensures outcome == Raised(Callbacks(count, script, |old(log)|), Done)
    {
      ghost var all := AllCallbacks(count, script, |log|);
      var i := 0;
      outcome := Done;
      while i < count && outcome.Done?
        invariant i <= |all| && log == old(log) + all[..i]
        invariant forall j :: 0 <= j < i - 1 ==> !all[j].outcome.Cancelled?
        invariant outcome == if i > 0 && all[i - 1].outcome.Cancelled? then Cancelled else Done
      {
        var ran := RunCallback(i);
        assert all[..i + 1] == all[..i] + [all[i]];
        i := i + 1;
        if ran.Cancelled? {
          outcome := Cancelled;
        }
      }
      ThroughIs(all, CANCELLED, i);
    }

    /**
     The lifespan: start, run the application (`app` is how it ended), stop, and call the callbacks;
     `outcome` is Done, or what it raised.
     */
    method Lifespan(app: Outcome, callbacks: nat) returns (outcome: Outcome)
      modifies this
      ensures Now() == AfterLifespan(old(Now()), clients, callbacks, script)
      ensures AllStarted(old(Now()), clients, script) ==>
                var s := AfterStart(old(Now()), clients, script);
                && outcome == (if ShutdownRaises(s, callbacks, script) then Cancelled else app)
                && (Last(StopsOf(s, script)).Cancelled? || started == [])
      ensures !AllStarted(old(Now()), clients, script) ==> !outcome.Done? && (outcome.Cancelled? || started == [])
    {
      outcome := Start();
      if !outcome.Done? {
        return;
      }
      outcome := Stop();
      if outcome.Cancelled? {
        return;
      }
      outcome := RunCallbacks(callbacks);
      if outcome.Done? {
        outcome := app;
      }
    }
  }

  // ---------------------------------------------------------------- every life of a core

  /** The stack is what is open by the record of the calls. */
  ghost predicate Sound(r: Record) {
    Open(r.log) == Some(r.started)
  }

  lemma StopKeepsSound(r: Record, script: Script)
    requires Sound(r)
    ensures Sound(AfterStop(r, script))
  {
    ErrorsSkipNobody(r.started, script, |r.log|);
    StopsAppend(r.log, StopsOf(r, script), r.started);
  }

  lemma StartKeepsSound(r: Record, clients: seq<Client>, script: Script)
    requires Sound(r)
    ensures Sound(AfterStart(r, clients, script))
  {
    var s := AfterStarts(r, clients, script);
    StartsShape(clients, script, |r.log|);
    StartsAppend(r.log, Starts(clients, script, |r.log|), r.started);
    StopKeepsSound(s, script);
  }

  lemma ShutdownKeepsSound(r: Record, callbacks: nat, script: Script)
    requires Sound(r)
    ensures Sound(AfterShutdown(r, callbacks, script))
  {
    var s := AfterStop(r, script);
    StopKeepsSound(r, script);
    CallbacksShape(callbacks, script, |s.log|);
    CallbacksAppend(s.log, Callbacks(callbacks, script, |s.log|));
  }

  datatype Operation = Start | Stop | Lifespan(callbacks: nat)

  function After(r: Record, clients: seq<Client>, script: Script, op: Operation): Record {
    match op
    case Start => AfterStart(r, clients, script)
    case Stop => AfterStop(r, script)
    case Lifespan(callbacks) => AfterLifespan(r, clients, callbacks, script)
  }

  function AfterAll(clients: seq<Client>, script: Script, ops: seq<Operation>): Record {
    if ops == [] then Record([], [])
    else After(AfterAll(clients, script, ops[..|ops| - 1]), clients, script, ops[|ops| - 1])
  }

  /**
   Whatever operations are called, in whatever order and however their calls end: a client is only ever
   stopped when it is the one started last of those open, and each completed start is answered by one stop or
   still open, so that repeated stops never stop a client twice.
   */
  lemma {:induction false} NeverStoppedTwice(clients: seq<Client>, script: Script, ops: seq<Operation>)
    ensures var r := AfterAll(clients, script, ops);
            && Open(r.log) == Some(r.started)
            && multiset(Stopped(r.log)) + multiset(r.started) == multiset(Completed(r.log))
  {
    if ops == [] {
    } else {
      var r := AfterAll(clients, script, ops[..|ops| - 1]);
      NeverStoppedTwice(clients, script, ops[..|ops| - 1]);
      match ops[|ops| - 1]
      case Start => StartKeepsSound(r, clients, script);
      case Stop => StopKeepsSound(r, script);
      case Lifespan(callbacks) =>
        StartKeepsSound(r, clients, script);
        ShutdownKeepsSound(AfterStart(r, clients, script), callbacks, script);
    }
    StopsMatchStarts(AfterAll(clients, script, ops).log);
  }

  /** Of the clients that completed their start all but the first `left` have been stopped, the last one first. */
  ghost predicate Balanced(log: seq<Event>, completed: seq<Client>, left: nat)
    requires left <= |completed|
  {
    && Completed(log) == completed
    && Open(log) == Some(completed[..left])
    && Stopped(log) == Reverse(completed[left..])
  }

  lemma StopsBalance(starts: seq<Event>, stops: seq<Event>)
    requires forall i :: 0 <= i < |starts| ==> starts[i].StartCall?
    requires IsStopOf(stops, Completed(starts))
    ensures Balanced(starts + stops, Completed(starts), |Completed(starts)| - |stops|)
  {
    StartsOnly(starts);
    StopsAppend(starts, stops, Completed(starts));
    StoppedInReverse(starts, stops, Completed(starts));
    StopsStartNobody(starts, stops);
  }

  lemma CallbacksBalance(log: seq<Event>, completed: seq<Client>, left: nat, count: nat, script: Script)
    requires left <= |completed| && Balanced(log, completed, left)
    ensures Balanced(log + Callbacks(count, script, |log|), completed, left)
  {
    CallbacksShape(count, script, |log|);
    CallbacksAppend(log, Callbacks(count, script, |log|));
  }

  lemma StartsOnly(starts: seq<Event>)
    requires forall i :: 0 <= i < |starts| ==> starts[i].StartCall?
    ensures Open(starts) == Some(Completed(starts)) && Stopped(starts) == []
  {
    StartsAppend([], starts, []);
    StartsStopNobody(starts);
    assert [] + starts == starts;
  }

  /**
   By the end of the lifespan of a new core, or of its start if that fails, all but the first `left` of the
   clients whose start completed have been told to stop exactly once each, in reverse order, whatever ordinary errors
   came; `left` is 0 if and only if no stop but the last was cancelled.
   */
  lemma LifeIsBalanced(clients: seq<Client>, callbacks: nat, script: Script) returns (left: nat)
    ensures var s := AfterStarts(Record([], []), clients, script);
            && Completed(s.log) == s.started && left <= |s.started|
            && Balanced(AfterLifespan(Record([], []), clients, callbacks, script).log, s.started, left)
            && (left == 0 <==> Uncancelled(s.started, script, |s.log|))
  {
    var s := AfterStarts(Record([], []), clients, script);
    StartsFromNothing(clients, script);
    left := StopIsBalanced(s, script);
    CallbacksBalance(AfterStop(s, script).log, s.started, left, callbacks, script);
  }

  lemma StopIsBalanced(s: Record, script: Script) returns (left: nat)
    requires forall i :: 0 <= i < |s.log| ==> s.log[i].StartCall?
    requires s.started == Completed(s.log)
    ensures left <= |s.started| && Balanced(AfterStop(s, script).log, s.started, left)
    ensures left == 0 <==> Uncancelled(s.started, script, |s.log|)
  {
    ErrorsSkipNobody(s.started, script, |s.log|);
    StopsBalance(s.log, StopsOf(s, script));
    left := |s.started| - |StopsOf(s, script)|;
  }

  /** Two clients start, the stop of the second is cancelled, and the first stays open. */
  lemma CancelledStopLeavesOpen(callbacks: nat) returns (script: Script)
    ensures AfterLifespan(Record([], []), [0, 1], callbacks, script) ==
            Record([StartCall(0, Done), StartCall(1, Done), StopCall(1, Cancelled)], [0])
  {
    script := n => if n == 2 then Cancelled else Done;
    TwoStart(script);
    SecondStopCancelled(script);
  }

  lemma TwoStart(script: Script)
    requires script(0) == Done && script(1) == Done
    ensures Starts([0, 1], script, 0) == [StartCall(0, Done), StartCall(1, Done)]
    ensures Completed([StartCall(0, Done), StartCall(1, Done)]) == [0, 1]
  {
    var starts := [StartCall(0, Done), StartCall(1, Done)];
    assert AllStarts([0, 1], script, 0) == starts;
    ThroughIs(starts, FAILED, 2);
    assert starts[..1] == [StartCall(0, Done)] && starts[..1][..0] == [];
    assert Completed(starts[..1]) == [0];
  }

  lemma SecondStopCancelled(script: Script)
    requires script(2) == Cancelled
    ensures Stops([0, 1], script, 2) == [StopCall(1, Cancelled)]
  {
    var all := AllStops([0, 1], script, 2);
    assert all[0] == StopCall(1, Cancelled);
    ThroughIs(all, CANCELLED, 1);
    assert all[..1] == [StopCall(1, Cancelled)];
  }

  lemma StartsFromNothing(clients: seq<Client>, script: Script)
    ensures var s := AfterStarts(Record([], []), clients, script);
            && s.started == Completed(s.log)
            && forall i :: 0 <= i < |s.log| ==> s.log[i].StartCall?
  {
    var starts := Starts(clients, script, 0);
    StartsShape(clients, script, 0);
    assert [] + starts == starts && [] + Completed(starts) == Completed(starts);
  }

  // ---------------------------------------------------------------- the callbacks of the lifespan

  /** The callbacks among the calls, in order. */
  function CallbacksIn(log: seq<Event>): seq<Event> {
    if log == [] then []
    else
      var e := log[|log| - 1];
      CallbacksIn(log[..|log| - 1]) + (if e.Callback? then [e] else [])
  }

  lemma {:induction false} CallbacksInConcat(a: seq<Event>, b: seq<Event>)
    ensures CallbacksIn(a + b) == CallbacksIn(a) + CallbacksIn(b)
  {
    if b == [] {
      assert a + b == a;
    } else {
      assert (a + b)[..|a + b| - 1] == a + b[..|b| - 1];
      CallbacksInConcat(a, b[..|b| - 1]);
    }
  }

  lemma {:induction false} CallbacksInEach(log: seq<Event>)
    ensures (forall i :: 0 <= i < |log| ==> log[i].Callback?) ==> CallbacksIn(log) == log
    ensures (forall i :: 0 <= i < |log| ==> !log[i].Callback?) ==> CallbacksIn(log) == []
  {
    if log == [] {
    } else {
      CallbacksInEach(log[..|log| - 1]);
    }
  }

  ghost predicate AStopIsCancelled(log: seq<Event>) {
    exists i :: 0 <= i < |log| && log[i].StopCall? && log[i].outcome.Cancelled?
  }

  /** They are called by number, each once, and only a cancelled one keeps the next from being called. */
  ghost predicate InTurn(calls: seq<Event>, count: nat) {
    && |calls| <= count
    && (forall i :: 0 <= i < |calls| ==> calls[i].Callback? && calls[i].index == i)
    && (forall i :: 0 <= i < |calls| - 1 ==> !calls[i].outcome.Cancelled?)
    && (|calls| < count ==> calls != [] && calls[|calls| - 1].outcome.Cancelled?)
  }

  /**
   The shutdown steps: all callbacks are called, in order and whatever ordinary errors they raise, up to one that is
   cancelled; none is called when a client did not start, or a stop was cancelled.
   */
  lemma CallbacksRun(clients: seq<Client>, callbacks: nat, script: Script)
    ensures var log := AfterLifespan(Record([], []), clients, callbacks, script).log;
            if Completed(log) == clients && !AStopIsCancelled(log)
            then InTurn(CallbacksIn(log), callbacks)
            else CallbacksIn(log) == []
  {
    var s := AfterStarts(Record([], []), clients, script);
    StartsFromNothing(clients, script);
    assert s.log == Starts(clients, script, 0);
    AllStartedMeans(clients, script);
    BeforeCallbacks(s, script);
    if AllStarted(Record([], []), clients, script) && !Last(StopsOf(s, script)).Cancelled? {
      AddCallbacks(AfterStop(s, script).log, callbacks, script);
    }
  }

  /** When the stops are over: no callback yet, and it is known whether there will be any. */
  lemma BeforeCallbacks(s: Record, script: Script)
    requires forall i :: 0 <= i < |s.log| ==> s.log[i].StartCall?
    ensures var log := AfterStop(s, script).log;
            && CallbacksIn(log) == [] && CallbacksIn(s.log) == []
            && Completed(log) == Completed(s.log) && !AStopIsCancelled(s.log)
            && (AStopIsCancelled(log) <==> Last(StopsOf(s, script)).Cancelled?)
  {
    var stops := StopsOf(s, script);
    ErrorsSkipNobody(s.started, script, |s.log|);
    StopsStartNobody(s.log, stops);
    CallbacksInEach(s.log);
    CallbacksInEach(stops);
    CallbacksInConcat(s.log, stops);
    CancelledIsLast(s.log, s.started, script);
  }

  lemma AddCallbacks(log: seq<Event>, count: nat, script: Script)
    requires CallbacksIn(log) == []
    ensures var calls := Callbacks(count, script, |log|);
            && InTurn(calls, count) && CallbacksIn(log + calls) == calls
            && Completed(log + calls) == Completed(log)
            && (AStopIsCancelled(log + calls) <==> AStopIsCancelled(log))
  {
    var calls := Callbacks(count, script, |log|);
    CallbacksInTurn(count, script, |log|);
    CallbacksAppend(log, calls);
    CallbacksInEach(calls);
    CallbacksInConcat(log, calls);
    assert [] + calls == calls;
    StopsInConcat(log, calls);
  }

  lemma CallbacksInTurn(count: nat, script: Script, at: nat)
    ensures InTurn(Callbacks(count, script, at), count)
  {
    ThroughIsPrefix(AllCallbacks(count, script, at), CANCELLED);
  }

  lemma StopsInConcat(log: seq<Event>, calls: seq<Event>)
    requires forall i :: 0 <= i < |calls| ==> calls[i].Callback?
    ensures AStopIsCancelled(log + calls) <==> AStopIsCancelled(log)
  {
    assert forall i :: 0 <= i < |log| ==> (log + calls)[i] == log[i];
    assert forall i :: |log| <= i < |log + calls| ==> (log + calls)[i] == calls[i - |log|];
  }

  lemma AllStartedMeans(clients: seq<Client>, script: Script)
    ensures Last(Starts(clients, script, 0)).Done? <==> Completed(Starts(clients, script, 0)) == clients
  {
    var all, starts := AllStarts(clients, script, 0), Starts(clients, script, 0);
    ThroughIsPrefix(all, FAILED);
    assert forall i :: 0 <= i < |starts| ==> starts[i] == all[i];
    CompletedAreFirst(starts, clients);
    assert clients[..|clients|] == clients;
  }

  lemma CancelledIsLast(starts: seq<Event>, open: seq<Client>, script: Script)
    requires forall i :: 0 <= i < |starts| ==> starts[i].StartCall?
    ensures var stops := Stops(open, script, |starts|);
            AStopIsCancelled(starts + stops) <==> Last(stops).Cancelled?
  {
    var stops := Stops(open, script, |starts|);
    ThroughIsPrefix(AllStops(open, script, |starts|), CANCELLED);
    if Last(stops).Cancelled? {
      assert (starts + stops)[|starts| + |stops| - 1] == stops[|stops| - 1];
    }
  }
}
