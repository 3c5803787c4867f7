/**
 The service token: one cached token, refreshed in a thread under a lock by whichever call finds it
 stale. Any number of `aget_token` calls interleave, at each point where the code can be interrupted.
 */
module ServiceToken {
  import opened Common

  const MARGIN: real := 30.0

  /** The two fields; no token yet is the empty text, as both are false. */
  datatype Cache = Cache(token: string, expiresAt: real)

  const EMPTY: Cache := Cache("", 0.0)

  predicate Fresh(cache: Cache, now: real) {
    cache.token != "" && now < cache.expiresAt - MARGIN
  }

  /** Keycloak's answer, or an error. An answer may lack a key: then the code stops where it reads it. */
  datatype Answer = Answer(token: Option<string>, lifetime: Option<real>) | Error

  datatype Result = Token(token: string) | Raised

  predicate Complete(answer: Answer) {
    answer.Answer? && answer.token.Some? && answer.lifetime.Some?
  }

  /** The fields after an answer that arrives at `later`. */
  function Answered(cache: Cache, answer: Answer, later: real): Cache {
    if answer.Error? || answer.token.None? then cache
    else Cache(answer.token.value, if answer.lifetime.Some? then later + answer.lifetime.value else cache.expiresAt)
  }

  class ServiceTokenManager {
    var token: string
    var expiresAt: real

    function Now(): Cache
      reads this
    {
      Cache(token, expiresAt)
    }

    constructor ()
      ensures Now() == EMPTY
    {
      token, expiresAt := "", 0.0;
    }

    /** `get_token`, with the two readings of the clock and the answer it gets if it asks. */
    method GetToken(now: real, answer: Answer, later: real) returns (result: Result, asked: bool)
      modifies this
      ensures asked <==> !Fresh(old(Now()), now)
      ensures result == Token(token) || (result == Raised && !Complete(answer))
      ensures result == Raised <==> asked && !Complete(answer)
      ensures Now() == if asked then Answered(old(Now()), answer, later) else old(Now())
    {
      if Fresh(Now(), now) {
        return Token(token), false;
      }
      asked := true;
      if answer.Error? || answer.token.None? {
        return Raised, true;
      }
      token := answer.token.value;
      if answer.lifetime.None? {
        return Raised, true;
      }
      expiresAt := later + answer.lifetime.value;
      result := Token(token);
    }
  }

  // ---------------------------------------------------------------- interleaved calls

  /** A `get_token` in its thread: about to check, waiting for Keycloak, between the two stores, over. */
  datatype Thread = Checking | Asking | Storing(lifetime: real) | Finished

  /** What is remembered of a run: a request to Keycloak, a completed refresh, a cached token handed out. */
  datatype Event = Asked(at: real) | Stored(at: real, token: string, lifetime: real) | Handed(at: real, token: string)

  datatype State = State(
    now: real,
    cache: Cache,
    lock: Option<nat>,
    waiting: set<nat>,
    threads: map<nat, Thread>,
    log: seq<Event>)

  /**
   `Call`: the check before the lock. `Acquire`: the lock is taken and the second check made. `Check`,
   `Answers`, `Fail`, `Store`: the thread. `Resume`: the call goes on after its thread. `Cancel`: the call
   is cancelled while it waits for the lock or for its thread, which goes on.
   */
  datatype Action =
    | Tick(time: real)
    | Call(task: nat)
    | Acquire(task: nat)
    | Check(task: nat)
    | Answers(task: nat, token: string, lifetime: real)
    | Fail(task: nat)
    | Store(task: nat)
    | Resume(task: nat)
    | Cancel(task: nat)

  function Initial(now: real): State {
    State(now, EMPTY, None, {}, map[], [])
  }

  function Hand(s: State): State {
    s.(log := s.log + [Handed(s.now, s.cache.token)])
  }

  function Set(s: State, task: nat, thread: Thread): State {
    s.(threads := s.threads[task := thread])
  }

  predicate At(s: State, task: nat, thread: Thread) {
    task in s.threads && s.threads[task] == thread
  }

  predicate InFlight(s: State, task: nat) {
    task in s.threads && (s.threads[task].Asking? || s.threads[task].Storing?)
  }

  /** An action that cannot happen in a state leaves it as it is. */
  function Step(s: State, action: Action): State {
    match action
    case Tick(time) =>
      if time > 0.0 then s.(now := s.now + time) else s
    case Call(t) =>
      if t in s.waiting || t in s.threads then s
      else if Fresh(s.cache, s.now) then Hand(s)
      else s.(waiting := s.waiting + {t})
    case Acquire(t) =>
      if t !in s.waiting || s.lock.Some? then s
      else
        var w := s.(waiting := s.waiting - {t});
        if Fresh(s.cache, s.now) then Hand(w) else Set(w.(lock := Some(t)), t, Checking)
    case Check(t) =>
      if !At(s, t, Checking) then s
      else if Fresh(s.cache, s.now) then Hand(Set(s, t, Finished))
      else Set(s, t, Asking).(log := s.log + [Asked(s.now)])
    case Answers(t, token, lifetime) =>
      if !At(s, t, Asking) then s
      else Set(s, t, Storing(lifetime)).(cache := s.cache.(token := token))
    case Fail(t) =>
      if !InFlight(s, t) then s else Set(s, t, Finished)
    case Store(t) =>
      if !(InFlight(s, t) && s.threads[t].Storing?) then s
      else
        var lifetime := s.threads[t].lifetime;
        Set(s, t, Finished).(
          cache := s.cache.(expiresAt := s.now + lifetime),
          log := s.log + [Stored(s.now, s.cache.token, lifetime)])
    case Resume(t) =>
      if s.lock == Some(t) && At(s, t, Finished) then s.(lock := None) else s
    case Cancel(t) =>
      if t in s.waiting then s.(waiting := s.waiting - {t})
      else if s.lock == Some(t) then s.(lock := None)
      else s
  }

  /** The steps of a thread that asks and gets this answer. */
  function ThreadSteps(task: nat, wait: real, answer: Answer): seq<Action> {
    [Check(task), Tick(wait)] +
    if answer.Error? || answer.token.None? then [Fail(task)]
    else if answer.lifetime.None? then [Answers(task, answer.token.value, 0.0), Fail(task)]
    else [Answers(task, answer.token.value, answer.lifetime.value), Store(task)]
  }

  function StepAll(s: State, actions: seq<Action>): State
    decreases |actions|
  {
    if actions == [] then s else StepAll(Step(s, actions[0]), actions[1..])
  }

  /** A thread that nothing interrupts does to the fields what a call of `get_token` does, whatever the answer. */
  lemma ThreadIsGetToken(s: State, task: nat, wait: real, answer: Answer)
    requires At(s, task, Checking) && wait > 0.0
    ensures var t := StepAll(s, ThreadSteps(task, wait, answer));
            && At(t, task, Finished)
            && t.cache == if Fresh(s.cache, s.now) then s.cache else Answered(s.cache, answer, s.now + wait)
  {
    var steps := ThreadSteps(task, wait, answer);
    var checked := Step(s, Check(task));
    var waited := Step(checked, Tick(wait));
    assert steps[1..][0] == Tick(wait) && StepAll(s, steps) == StepAll(waited, steps[1..][1..]);
    var rest := steps[1..][1..];
    assert StepAll(waited, rest) == StepAll(Step(waited, rest[0]), rest[1..]);
    if |rest| == 2 {
      var answered := Step(waited, rest[0]);
      assert StepAll(answered, rest[1..]) == StepAll(Step(answered, rest[1]), rest[1..][1..]);
    }
  }

  function Run(now: real, actions: seq<Action>): State {
    if actions == [] then Initial(now)
    else Step(Run(now, actions[..|actions| - 1]), actions[|actions| - 1])
  }

  // ---------------------------------------------------------------- one refresh at a time

  /** A cancellation that strikes a call while its thread is at work: it lets the lock go. */
  predicate Harmful(s: State, action: Action) {
    && action.Cancel? && s.lock == Some(action.task) && action.task !in s.waiting
    && action.task in s.threads && !s.threads[action.task].Finished?
  }

  /** No call is cancelled while its thread is at work; one that waits for the lock, or is done, may be. */
  ghost predicate Guarded(now: real, actions: seq<Action>) {
    actions == [] ||
    var before := actions[..|actions| - 1];
    Guarded(now, before) && !Harmful(Run(now, before), actions[|actions| - 1])
  }

  /** Whoever has an unfinished thread holds the lock. */
  ghost predicate Alone(s: State) {
    && (forall t :: t in s.threads && !s.threads[t].Finished? ==> s.lock == Some(t))
    && (forall t :: t in s.waiting ==> t !in s.threads)
  }

  lemma {:induction false} RunsAlone(now: real, actions: seq<Action>)
    requires Guarded(now, actions)
    ensures Alone(Run(now, actions))
  {
    if actions == [] {
    } else {
      RunsAlone(now, actions[..|actions| - 1]);
    }
  }

  /** At most one refresh is in flight. */
  ghost predicate Single(s: State) {
    forall t, u :: InFlight(s, t) && InFlight(s, u) ==> t == u
  }

  ghost predicate NoCancel(actions: seq<Action>) {
    forall i :: 0 <= i < |actions| ==> !actions[i].Cancel?
  }

  /** At most one refresh is in flight at every point of the run, however it goes on without another cancellation. */
  ghost predicate SingleThroughout(now: real, actions: seq<Action>) {
    forall n, more :: 0 <= n <= |actions| && NoCancel(more) ==> Single(Run(now, actions[..n] + more))
  }

  /** Refreshes are single-flight if and only if no call is cancelled while its thread is at work. */
  lemma SingleFlight(now: real, actions: seq<Action>)
    ensures Guarded(now, actions) <==> SingleThroughout(now, actions)
  {
    if Guarded(now, actions) {
      forall n, more | 0 <= n <= |actions| && NoCancel(more)
        ensures Single(Run(now, actions[..n] + more))
      {
        GuardedBefore(now, actions, n);
        GuardedAfter(now, actions[..n], more);
        RunsAlone(now, actions[..n] + more);
      }
    } else {
      var n := FirstHarm(now, actions);
      var more := TwoInFlight(now, actions[..n], actions[n]);
      assert actions[..n] + [actions[n]] == actions[..n + 1];
    }
  }

  lemma {:induction false} GuardedBefore(now: real, actions: seq<Action>, n: nat)
    requires n <= |actions| && Guarded(now, actions)
    ensures Guarded(now, actions[..n])
  {
    if n == |actions| {
      assert actions[..n] == actions;
    } else {
      GuardedBefore(now, actions[..|actions| - 1], n);
      assert actions[..|actions| - 1][..n] == actions[..n];
    }
  }

  lemma {:induction false} GuardedAfter(now: real, actions: seq<Action>, more: seq<Action>)
    requires Guarded(now, actions) && NoCancel(more)
    ensures Guarded(now, actions + more)
  {
    if more == [] {
      assert actions + more == actions;
    } else {
      var fewer := more[..|more| - 1];
      GuardedAfter(now, actions, fewer);
      assert (actions + more)[..|actions + more| - 1] == actions + fewer;
    }
  }

  lemma {:induction false} FirstHarm(now: real, actions: seq<Action>) returns (n: nat)
    requires !Guarded(now, actions)
    ensures n < |actions| && Harmful(Run(now, actions[..n]), actions[n])
  {
    var before := actions[..|actions| - 1];
    if Guarded(now, before) {
      n := |actions| - 1;
    } else {
      n := FirstHarm(now, before);
      assert before[..n] == actions[..n];
    }
  }

  /** After such a cancellation the thread goes on, and the next call begins another refresh. */
  lemma TwoInFlight(now: real, before: seq<Action>, cancel: Action) returns (more: seq<Action>)
    requires Harmful(Run(now, before), cancel)
    ensures NoCancel(more) && !Single(Run(now, before + [cancel] + more))
  {
    var s, t := Run(now, before), cancel.task;
    var u := NewTask(s.waiting + s.threads.Keys);
    var wait := if s.cache.expiresAt > s.now then s.cache.expiresAt - s.now else 1.0;
    RunsDisjoint(now, before);
    GoesOnTogether(Step(s, cancel), t, u, wait);
    Extend(now, before, cancel);
    var base := before + [cancel];
    assert base + [] == base;
    more := GoOn(now, base, [], Tick(wait));
    more := GoOn(now, base, more, Check(t));
    more := GoOn(now, base, more, Call(u));
    more := GoOn(now, base, more, Acquire(u));
    more := GoOn(now, base, more, Check(u));
  }

  lemma GoOn(now: real, base: seq<Action>, more: seq<Action>, action: Action) returns (longer: seq<Action>)
    requires NoCancel(more) && !action.Cancel?
    ensures NoCancel(longer) && Run(now, base + longer) == Step(Run(now, base + more), action)
  {
    longer := more + [action];
    assert base + longer == base + more + [action];
    Extend(now, base + more, action);
  }

  lemma GoesOnTogether(s: State, t: nat, u: nat, wait: real)
    requires t in s.threads && !s.threads[t].Finished? && s.lock.None?
    requires u !in s.threads && u !in s.waiting && wait > 0.0 && s.now + wait >= s.cache.expiresAt
    ensures var w := Step(Step(Step(Step(Step(s, Tick(wait)), Check(t)), Call(u)), Acquire(u)), Check(u));
            InFlight(w, t) && InFlight(w, u)
  {
    var a := Step(s, Tick(wait));
    var b := Step(a, Check(t));
    assert !Fresh(b.cache, b.now) && InFlight(b, t);
    var c := Step(b, Call(u));
    assert u in c.waiting;
    var d := Step(c, Acquire(u));
    assert At(d, u, Checking) && InFlight(d, t);
  }

  lemma NewTask(used: set<nat>) returns (u: nat)
    ensures u !in used
  {
    u := 0;
    var left := used;
    while u in used
      invariant forall v :: v in left <==> v in used && v >= u
      decreases left
    {
      left := left - {u};
      u := u + 1;
    }
  }

  /** A call that waits for the lock has no thread. */
  lemma {:induction false} RunsDisjoint(now: real, actions: seq<Action>)
    ensures forall t :: t in Run(now, actions).waiting ==> t !in Run(now, actions).threads
  {
    if actions == [] {
    } else {
      RunsDisjoint(now, actions[..|actions| - 1]);
    }
  }

  lemma Extend(now: real, actions: seq<Action>, action: Action)
    ensures Run(now, actions + [action]) == Step(Run(now, actions), action)
  {
    assert (actions + [action])[..|actions|] == actions;
  }

  /** Such a run: a call is cancelled while its thread asks, and the next call asks as well. */
  lemma CancelledFlight(now: real) returns (actions: seq<Action>)
    requires now >= 0.0
    ensures !Guarded(now, actions)
    ensures InFlight(Run(now, actions), 0) && InFlight(Run(now, actions), 1)
  {
    var first := [Call(0), Acquire(0), Check(0), Cancel(0)];
    Extend(now, [], Call(0));
    Extend(now, [Call(0)], Acquire(0));
    assert [Call(0)] + [Acquire(0)] == [Call(0), Acquire(0)];
    Extend(now, [Call(0), Acquire(0)], Check(0));
    assert [Call(0), Acquire(0)] + [Check(0)] == [Call(0), Acquire(0), Check(0)];
    Extend(now, [Call(0), Acquire(0), Check(0)], Cancel(0));
    assert [Call(0), Acquire(0), Check(0)] + [Cancel(0)] == first;
    assert Run(now, first) == State(now, EMPTY, None, {}, map[0 := Asking], [Asked(now)]);
    Extend(now, first, Call(1));
    Extend(now, first + [Call(1)], Acquire(1));
    Extend(now, first + [Call(1)] + [Acquire(1)], Check(1));
    actions := first + [Call(1)] + [Acquire(1)] + [Check(1)];
    if Guarded(now, actions) {
      RunsAlone(now, actions);
      assert false;
    }
  }

  // ---------------------------------------------------------------- nobody waits for ever

  /** The lock is held by a call that has a thread. */
  lemma {:induction false} HolderHasThread(now: real, actions: seq<Action>)
    ensures var s := Run(now, actions); s.lock.Some? ==> s.lock.value in s.threads
  {
    if actions == [] {
    } else {
      HolderHasThread(now, actions[..|actions| - 1]);
    }
  }

  /** What is left to do for a thread that goes on, and then for its call. */
  function Rest(thread: Thread): nat {
    match thread
    case Checking => 3
    case Asking => 2
    case Storing(_) => 2
    case Finished => 1
  }

  /** The next thing that the holder of the lock does; of the ways a thread can go on, the shortest. */
  function Onward(s: State, holder: nat): Action
    requires holder in s.threads
  {
    match s.threads[holder]
    case Checking => Check(holder)
    case Asking => Fail(holder)
    case Storing(_) => Store(holder)
    case Finished => Resume(holder)
  }

  lemma OnwardAdvances(s: State, holder: nat)
    requires s.lock == Some(holder) && holder in s.threads
    ensures var t := Step(s, Onward(s, holder));
            && t.waiting == s.waiting && t.threads.Keys == s.threads.Keys && holder in t.threads
            && if s.threads[holder].Finished? then t.lock.None? && t.threads == s.threads
               else t.lock == s.lock && Rest(t.threads[holder]) < Rest(s.threads[holder])
  {
  }

  /** Whoever holds the lock can let it go, with its thread finished. */
  lemma {:induction false} LockIsReleased(now: real, base: seq<Action>, more: seq<Action>, holder: nat)
      returns (longer: seq<Action>)
    requires NoCancel(more)
    requires var s := Run(now, base + more); s.lock == Some(holder) && holder in s.threads
    ensures NoCancel(longer)
    ensures var s, t := Run(now, base + more), Run(now, base + longer);
            && t.lock.None? && t.waiting == s.waiting && t.threads.Keys == s.threads.Keys
            && At(t, holder, Finished)
    decreases Rest(Run(now, base + more).threads[holder])
  {
    var s := Run(now, base + more);
    OnwardAdvances(s, holder);
    longer := GoOn(now, base, more, Onward(s, holder));
    if s.threads[holder].Finished? {
    } else {
      longer := LockIsReleased(now, base, longer, holder);
    }
  }

  /**
   From every state that can be reached, whatever was cancelled: the run can go on, without another cancellation, to
   where a call that waits for the lock is over: it has been handed the token, or its thread has finished, and the
   lock is free again.
   */
  lemma NobodyWaitsForEver(now: real, actions: seq<Action>, task: nat) returns (more: seq<Action>)
    requires task in Run(now, actions).waiting
    ensures NoCancel(more)
    ensures var t := Run(now, actions + more);
            && task !in t.waiting && t.lock.None?
            && (At(t, task, Finished) || (t.log != [] && t.log[|t.log| - 1] == Handed(t.now, t.cache.token)))
  {
    more := [];
    assert actions + [] == actions;
    HolderHasThread(now, actions);
    RunsDisjoint(now, actions);
    if Run(now, actions).lock.Some? {
      more := LockIsReleased(now, actions, more, Run(now, actions).lock.value);
    }
    more := GoOn(now, actions, more, Acquire(task));
    if Run(now, actions + more).lock.Some? {
      more := LockIsReleased(now, actions, more, task);
    }
  }

  // ---------------------------------------------------------------- how often, and how fresh

  /** No harmful cancellation, and Keycloak never answers with an empty token. */
  ghost predicate Usual(now: real, actions: seq<Action>) {
    Guarded(now, actions) && forall i :: 0 <= i < |actions| && actions[i].Answers? ==> actions[i].token != ""
  }

  predicate Stale(s: State) {
    s.now >= s.cache.expiresAt - MARGIN
  }

  /** A completed refresh whose token is, or will have been, used up to its last `MARGIN` seconds. */
  ghost predicate Covered(s: State, e: Event) {
    e.Stored? ==> e.at + e.lifetime <= s.cache.expiresAt || e.at + e.lifetime <= s.now + MARGIN
  }

  /** The cached token and the time it expires belong together. */
  ghost predicate Backed(s: State) {
    exists i :: 0 <= i < |s.log| && s.log[i] == Stored(s.log[i].at, s.cache.token, s.cache.expiresAt - s.log[i].at)
  }

  ghost predicate Sound(s: State) {
    && Alone(s)
    && (s.cache.token == "" ==> Stale(s))
    && (forall t :: InFlight(s, t) ==> Stale(s) && (s.threads[t].Storing? ==> s.cache.token != ""))
    && (forall i :: 0 <= i < |s.log| ==> Covered(s, s.log[i]))
    && (Stale(s) || Backed(s))
  }

  /** A refresh begins, and completes, only when every token before it had at most `MARGIN` seconds left. */
  ghost predicate Spaced(log: seq<Event>) {
    forall i, j :: 0 <= i < j < |log| && log[i].Stored? && (log[j].Asked? || log[j].Stored?) ==>
      log[j].at >= log[i].at + log[i].lifetime - MARGIN
  }

  /** A cached token was stored by an earlier refresh, and is more than `MARGIN` seconds from its end. */
  ghost predicate HandedFresh(log: seq<Event>) {
    forall j :: 0 <= j < |log| && log[j].Handed? ==> StoredBefore(log, j)
  }

  ghost predicate StoredBefore(log: seq<Event>, j: nat)
    requires j < |log| && log[j].Handed?
  {
    exists i :: 0 <= i < j && log[i].Stored? && log[i].token == log[j].token
                && log[i].at + log[i].lifetime - log[j].at > MARGIN
  }

  predicate Proper(s: State, action: Action) {
    !Harmful(s, action) && (action.Answers? ==> action.token != "")
  }

  lemma StepAlone(s: State, action: Action)
    requires Sound(s) && Proper(s, action)
    ensures var t := Step(s, action);
            && Alone(t)
            && (t.cache.token == "" ==> Stale(t))
            && (forall u :: InFlight(t, u) ==> Stale(t) && (t.threads[u].Storing? ==> t.cache.token != ""))
  {
  }

  lemma StepCovered(s: State, action: Action)
    requires Sound(s) && Proper(s, action)
    ensures var t := Step(s, action); forall i :: 0 <= i < |t.log| ==> Covered(t, t.log[i])
  {
    var t := Step(s, action);
    forall i | 0 <= i < |t.log|
      ensures Covered(t, t.log[i])
    {
      if i < |s.log| {
        assert Covered(s, s.log[i]);
      }
    }
  }

  lemma StepBacked(s: State, action: Action)
    requires Sound(s) && Proper(s, action)
    ensures Stale(Step(s, action)) || Backed(Step(s, action))
  {
    var t := Step(s, action);
    if t.cache == s.cache {
      if !Stale(s) {
        var i :| 0 <= i < |s.log| && s.log[i] == Stored(s.log[i].at, s.cache.token, s.cache.expiresAt - s.log[i].at);
        assert t.log[i] == s.log[i];
      }
    } else if action.Store? {
      var last := |s.log|;
      assert t.log[last] == Stored(t.log[last].at, t.cache.token, t.cache.expiresAt - t.log[last].at);
    }
  }

  lemma StepSpaced(s: State, action: Action)
    requires Sound(s) && Spaced(s.log)
    ensures Spaced(Step(s, action).log)
  {
    var t := Step(s, action);
    if t.log != s.log {
      var e := t.log[|s.log|];
      assert t.log == s.log + [e];
      if e.Asked? || e.Stored? {
        assert Stale(s) && e.at == s.now;
        assert forall i :: 0 <= i < |s.log| ==> Covered(s, s.log[i]);
      }
    }
  }

  lemma StepHandedFresh(s: State, action: Action)
    requires Sound(s) && HandedFresh(s.log)
    ensures HandedFresh(Step(s, action).log)
  {
    var t := Step(s, action);
    if t.log != s.log {
      var e := t.log[|s.log|];
      assert t.log == s.log + [e];
      if e.Handed? {
        HandedIsBacked(s, t.log);
      }
      forall j | 0 <= j < |s.log| && t.log[j].Handed?
        ensures StoredBefore(t.log, j)
      {
        StoredBeforeStays(s.log, t.log, j);
      }
    }
  }

  lemma HandedIsBacked(s: State, log: seq<Event>)
    requires Sound(s) && Fresh(s.cache, s.now) && log == Hand(s).log
    ensures StoredBefore(log, |s.log|)
  {
    var i :| 0 <= i < |s.log| && s.log[i] == Stored(s.log[i].at, s.cache.token, s.cache.expiresAt - s.log[i].at);
    assert log[i] == s.log[i];
  }

  lemma StoredBeforeStays(log: seq<Event>, longer: seq<Event>, j: nat)
    requires j < |log| <= |longer| && longer[..|log|] == log && log[j].Handed? && StoredBefore(log, j)
    ensures longer[j] == log[j] && StoredBefore(longer, j)
  {
    assert forall i :: 0 <= i < |log| ==> longer[i] == longer[..|log|][i];
    var i :| 0 <= i < j && log[i].Stored? && log[i].token == log[j].token
             && log[i].at + log[i].lifetime - log[j].at > MARGIN;
    assert longer[i] == log[i];
  }

  /**
   In every usual run two refreshes are at least the first token's lifetime less the margin apart, and
   every cached token handed out has more than the margin left.
   */
  lemma {:induction false} RefreshesAreSpaced(now: real, actions: seq<Action>)
    requires now >= 0.0 && Usual(now, actions)
    ensures var s := Run(now, actions);
            Sound(s) && Spaced(s.log) && HandedFresh(s.log)
  {
    if actions == [] {
    } else {
      var before, last := actions[..|actions| - 1], actions[|actions| - 1];
      RefreshesAreSpaced(now, before);
      var s := Run(now, before);
      StepAlone(s, last);
      StepCovered(s, last);
      StepBacked(s, last);
      StepSpaced(s, last);
      StepHandedFresh(s, last);
    }
  }
}
