/** The delivery limit, over whole runs of any number of consumers. */
module ProtocolDeliveries {
  import opened Common
  import opened HandlerTask
  import opened Protocol

  /** A delivery that may reach the handler: within the limit, or its count could not be read. */
  predicate Admitted(limits: Limits, w: World, d: Delivery) {
    d.number <= Max(1, limits.maxDeliveries) || d in w.blind
  }

  /** Before or between the attempts of a handling. */
  predicate Handling(pc: Pc) {
    pc.Parse? || pc.Wait? || pc.Process? || pc.AckProcessed? || pc.Sleep?
  }

  /** The number of the last attempt that has begun. */
  function Begun(limits: Limits, pc: Pc): nat {
    match pc
    case Wait(k) => if k > 0 then k - 1 else 0
    case Process(k) => k
    case AckProcessed(k) => k
    case Sleep(k) => k
    case Parse => 0
    case Count => 0
    case _ => limits.maxRetries
  }

  ghost predicate TaskInLimits(limits: Limits, w: World, d: Delivery, pc: Pc) {
    && (pc.Wait? ==> 1 <= pc.attempt)
    && Begun(limits, pc) <= limits.maxRetries
    && (pc.Wait? || pc.Process? || pc.AckProcessed? ==> pc.attempt <= limits.maxRetries)
    && (pc.Sleep? ==> pc.attempt < limits.maxRetries)
    && (Handling(pc) ==> Admitted(limits, w, d))
    && (forall call :: call in w.calls && call.delivery == d ==> call.attempt <= Begun(limits, pc))
  }

  ghost predicate CallInLimits(limits: Limits, w: World, call: Call) {
    1 <= call.attempt <= limits.maxRetries && Admitted(limits, w, call.delivery)
  }

  ghost predicate InLimits(limits: Limits, w: World) {
    && NoDuplicates(w.calls)
    && (forall call :: call in w.calls ==> CallInLimits(limits, w, call))
    && (forall d :: d in w.tasks ==> TaskInLimits(limits, w, d, w.tasks[d].pc))
  }

  /** Only a count that was read and is within the limit, or no count at all, lets a claim through. */
  lemma AdmittedNext(limits: Limits, w: World, d: Delivery, event: Event, after: World)
    requires Numbered(w) && Awaited(limits, w, d, event, after)
    requires Handling(w.tasks[d].pc) ==> Admitted(limits, w, d)
    requires Handling(Next(limits, w.tasks[d].pc, event).value)
    ensures Admitted(limits, after, d)
  {
    if event.Counted? && event.deliveries.Some? {
      assert Happened(w, d);
      assert d.number <= event.deliveries.value <= limits.maxDeliveries;
    }
  }

  lemma CallsByAwait(limits: Limits, w: World, d: Delivery, event: Event, after: World)
    requires Numbered(w) && InLimits(limits, w) && Awaited(limits, w, d, event, after)
    ensures NoDuplicates(after.calls)
    ensures forall call :: call in after.calls ==> CallInLimits(limits, after, call)
  {
    var pc := w.tasks[d].pc;
    assert TaskInLimits(limits, w, d, pc);
    if event.Acquired? {
      assert Call(d, pc.attempt) !in w.calls;
    }
    forall call | call in after.calls
      ensures CallInLimits(limits, after, call)
    {
      if call in w.calls {
        assert CallInLimits(limits, w, call);
      }
    }
  }

  lemma NextInLimits(limits: Limits, w: World, d: Delivery, event: Event, after: World)
    requires Numbered(w) && InLimits(limits, w) && Awaited(limits, w, d, event, after) && d in after.tasks
    ensures TaskInLimits(limits, after, d, after.tasks[d].pc)
  {
    var pc := w.tasks[d].pc;
    assert TaskInLimits(limits, w, d, pc);
    if Handling(after.tasks[d].pc) {
      AdmittedNext(limits, w, d, event, after);
    }
    forall call | call in after.calls && call.delivery == d
      ensures call.attempt <= Begun(limits, after.tasks[d].pc)
    {
      assert call in w.calls || call == Call(d, pc.attempt);
    }
  }

  lemma InLimitsByAwait(limits: Limits, w: World, d: Delivery, event: Event, after: World)
    requires Numbered(w) && InLimits(limits, w) && Awaited(limits, w, d, event, after)
    ensures InLimits(limits, after)
  {
    CallsByAwait(limits, w, d, event, after);
    forall e | e in after.tasks
      ensures TaskInLimits(limits, after, e, after.tasks[e].pc)
    {
      if e == d {
        NextInLimits(limits, w, d, event, after);
      } else {
        assert TaskInLimits(limits, w, e, w.tasks[e].pc);
        assert forall call :: call in after.calls && call.delivery == e ==> call in w.calls;
      }
    }
  }

  lemma InLimitsByHandOut(limits: Limits, w: World, consumer: nat, d: Delivery, pc: Pc)
    requires Numbered(w) && InLimits(limits, w) && !Happened(w, d)
    requires pc.Count? || pc.AckTrimmed? || (pc.Parse? && d.number == 1)
    ensures InLimits(limits, HandOut(w, consumer, d, pc))
  {
    var after := HandOut(w, consumer, d, pc);
    SameInLimits(limits, w, after, d);
    assert forall call :: call in w.calls ==> call.delivery != d;
  }

  lemma SameInLimits(limits: Limits, w: World, after: World, except: Delivery)
    requires InLimits(limits, w)
    requires after.calls == w.calls && after.blind == w.blind
    requires forall e :: e in after.tasks && e != except ==> e in w.tasks && after.tasks[e] == w.tasks[e]
    ensures NoDuplicates(after.calls)
    ensures forall call :: call in after.calls ==> CallInLimits(limits, after, call)
    ensures forall e :: e in after.tasks && e != except ==> TaskInLimits(limits, after, e, after.tasks[e].pc)
  {
    forall call | call in after.calls
      ensures CallInLimits(limits, after, call)
    {
      assert CallInLimits(limits, w, call);
    }
    forall e | e in after.tasks && e != except
      ensures TaskInLimits(limits, after, e, after.tasks[e].pc)
    {
      assert TaskInLimits(limits, w, e, w.tasks[e].pc);
    }
  }

  lemma InLimitsByStep(limits: Limits, w: World, action: Action)
    requires Numbered(w) && InLimits(limits, w) && Ordered(w) && Step(limits, w, action).Some?
    ensures InLimits(limits, Step(limits, w, action).value)
  {
    match action {
      case Await(d, event) =>
        ResumeIsAwaited(limits, w, d, event);
        InLimitsByAwait(limits, w, d, event, Step(limits, w, action).value);
      case Read(consumer, id) => InLimitsByHandOut(limits, w.(cursor := id), consumer, Delivery(id, 1), Parse);
      case Claim(consumer, id) => InLimitsByClaim(limits, w, consumer, id);
      case _ => InLimitsByProcesses(limits, w, action);
    }
  }

  lemma InLimitsByClaim(limits: Limits, w: World, consumer: nat, id: nat)
    requires Numbered(w) && InLimits(limits, w) && Step(limits, w, Claim(consumer, id)).Some?
    ensures InLimits(limits, Step(limits, w, Claim(consumer, id)).value)
  {
    var d := Delivery(id, w.pending[id] + 1);
    if id in w.stream {
      InLimitsByHandOut(limits, w, consumer, d, Count);
    } else {
      InLimitsByHandOut(limits, w.(gone := w.gone + {id}), consumer, d, AckTrimmed);
    }
  }

  lemma InLimitsByProcesses(limits: Limits, w: World, action: Action)
    requires Numbered(w) && InLimits(limits, w) && Step(limits, w, action).Some?
    requires !action.Await? && !action.Read? && !action.Claim?
    ensures InLimits(limits, Step(limits, w, action).value)
  {
    var after := Step(limits, w, action).value;
    var unused := Delivery(0, 0);
    assert !Happened(w, unused);
    assert unused !in after.tasks;
    SameInLimits(limits, w, after, unused);
  }

  lemma {:induction false} LimitsByRun(limits: Limits, actions: seq<Action>)
    requires Run(limits, actions).Some?
    ensures InLimits(limits, Run(limits, actions).value)
  {
    if actions == [] {
    } else {
      var before := actions[..|actions| - 1];
      LimitsByRun(limits, before);
      OrderedByRun(limits, before);
      NumberedByRun(limits, before);
      InLimitsByStep(limits, Run(limits, before).value, actions[|actions| - 1]);
    }
  }

  // ---------------------------------------------------------------- counting

  function CallsOf(calls: seq<Call>, id: nat): (s: seq<Call>)
    ensures forall call :: call in s <==> call in calls && call.delivery.id == id
  {
    if calls == [] then []
    else
      CallsOf(calls[..|calls| - 1], id) +
      (if calls[|calls| - 1].delivery.id == id then [calls[|calls| - 1]] else [])
  }

  lemma {:induction false} CallsOfDistinct(calls: seq<Call>, id: nat)
    requires NoDuplicates(calls)
    ensures NoDuplicates(CallsOf(calls, id))
  {
    if calls == [] {
    } else {
      CallsOfDistinct(calls[..|calls| - 1], id);
      assert calls[|calls| - 1] !in calls[..|calls| - 1];
    }
  }

  /** The deliveries of an entry whose count could not be read. */
  function Blind(w: World, id: nat): set<nat> {
    set d | d in w.blind && d.id == id :: d.number
  }

  /** Every possible call for `id` on the given deliveries. */
  ghost function Grid(id: nat, deliveries: set<nat>, attempts: nat): (grid: set<Call>)
    ensures forall n, k :: n in deliveries && 1 <= k <= attempts ==> Call(Delivery(id, n), k) in grid
    ensures |grid| <= Times(|deliveries|, attempts)
    decreases deliveries
  {
    if deliveries == {} then {}
    else
      var n :| n in deliveries;
      assert |deliveries| == |deliveries - {n}| + 1;
      Grid(id, deliveries - {n}, attempts) + Row(Delivery(id, n), attempts)
  }

  function Times(n: nat, attempts: nat): nat {
    if n == 0 then 0 else Times(n - 1, attempts) + attempts
  }

  lemma {:induction false} TimesIsProduct(n: nat, bound: nat, attempts: nat)
    requires n <= bound
    ensures Times(n, attempts) <= bound * attempts
    ensures n == bound ==> Times(n, attempts) == bound * attempts
  {
    if n == 0 {
    } else {
      TimesIsProduct(n - 1, bound - 1, attempts);
      assert bound * attempts == (bound - 1) * attempts + attempts;
    }
  }

  ghost function Row(d: Delivery, attempts: nat): (row: set<Call>)
    ensures forall k :: 1 <= k <= attempts ==> Call(d, k) in row
    ensures |row| <= attempts
  {
    if attempts == 0 then {} else Row(d, attempts - 1) + {Call(d, attempts)}
  }

  /**
   The delivery limit. In every reachable state the handler has been called for an entry on at most
   max(1, max_deliveries) deliveries, not counting those whose count could not be read, and at most
   `max_retries` times on each; a delivery past the limit whose count was read never reaches it.
   */
  lemma DeliveryLimit(limits: Limits, actions: seq<Action>, id: nat)
    requires Run(limits, actions).Some?
    ensures var w := Run(limits, actions).value;
            && |CallsOf(w.calls, id)| <= (Max(1, limits.maxDeliveries) + |Blind(w, id)|) * limits.maxRetries
            && (forall call :: call in CallsOf(w.calls, id) ==>
                  call.delivery.number <= Max(1, limits.maxDeliveries) || call.delivery.number in Blind(w, id))
  {
    LimitsByRun(limits, actions);
    NumberedByRun(limits, actions);
    var w := Run(limits, actions).value;
    var calls := CallsOf(w.calls, id);
    CallsOfDistinct(w.calls, id);
    var allowed := UpTo(Max(1, limits.maxDeliveries));
    var deliveries := allowed + Blind(w, id);
    forall call | call in calls
      ensures call.delivery.number in deliveries
      ensures call in Grid(id, deliveries, limits.maxRetries)
    {
      assert CallInLimits(limits, w, call) && Happened(w, call.delivery);
      if call.delivery in w.blind {
        assert call.delivery.number in Blind(w, id);
      }
      assert call == Call(Delivery(id, call.delivery.number), call.attempt);
    }
    NoDuplicatesFit(calls, Grid(id, deliveries, limits.maxRetries));
    TimesIsProduct(|deliveries|, |allowed| + |Blind(w, id)|, limits.maxRetries);
  }

  predicate CountsAreRead(actions: seq<Action>) {
    forall i :: 0 <= i < |actions| ==> !(actions[i].Await? && actions[i].event == Counted(None))
  }

  lemma {:induction false} NothingBlind(limits: Limits, actions: seq<Action>)
    requires Run(limits, actions).Some? && CountsAreRead(actions)
    ensures Run(limits, actions).value.blind == {}
  {
    if actions == [] {
    } else {
      NothingBlind(limits, actions[..|actions| - 1]);
      BlindIsKept(limits, Run(limits, actions[..|actions| - 1]).value, actions[|actions| - 1]);
    }
  }

  lemma BlindIsKept(limits: Limits, w: World, action: Action)
    requires Step(limits, w, action).Some? && !(action.Await? && action.event == Counted(None))
    ensures Step(limits, w, action).value.blind == w.blind
  {
    if action.Await? {
      ResumeIsAwaited(limits, w, action.task, action.event);
    }
  }

  /** When every count could be read, that is at most max(1, max_deliveries) * max_retries calls. */
  lemma DeliveryLimitWhenCountsAreRead(limits: Limits, actions: seq<Action>, id: nat)
    requires Run(limits, actions).Some? && CountsAreRead(actions)
    ensures |CallsOf(Run(limits, actions).value.calls, id)| <= Max(1, limits.maxDeliveries) * limits.maxRetries
  {
    NothingBlind(limits, actions);
    DeliveryLimit(limits, actions, id);
    assert Blind(Run(limits, actions).value, id) == {};
  }
}
