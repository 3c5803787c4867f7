/**
 The delivery limit needs the counts: for any limits, a run on which Redis answers every command and the
 handler is called once more than they allow.
 */
module ProtocolOverrun {
  import opened Common
  import opened HandlerTask
  import opened Protocol
  import opened ProtocolDeliveries

  lemma RunMore(limits: Limits, actions: seq<Action>, w: World, action: Action)
    returns (more: seq<Action>, after: World)
    requires Run(limits, actions) == Some(w) && Step(limits, w, action).Some?
    ensures more == actions + [action] && Run(limits, more) == Some(after) && Step(limits, w, action) == Some(after)
  {
    more, after := actions + [action], Step(limits, w, action).value;
    assert more[..|actions|] == actions;
  }

  /** An await after which the coroutine goes on. */
  lemma GoOn(limits: Limits, actions: seq<Action>, w: World, d: Delivery, event: Event, next: Pc)
    returns (more: seq<Action>, after: World)
    requires Run(limits, actions) == Some(w) && d in w.tasks && Possible(w, d, event)
    requires Next(limits, w.tasks[d].pc, event) == Some(next) && !next.End?
    ensures more == actions + [Await(d, event)] && Run(limits, more) == Some(after)
    ensures after == Effect(w, d, event).(tasks := w.tasks[d := w.tasks[d].(pc := next)])
  {
    more, after := RunMore(limits, actions, w, Await(d, event));
  }

  /**
   One entry, delivered `n` times, each time to a consumer of its own: the coroutine of the last delivery stands at
   `pc`, its consumer has `free` free slots, the handler has been called `calls` times, and the first delivery, if it
   is an earlier one, is processed and about to be ACKed.
   */
  ghost predicate Stands(limits: Limits, w: World, n: nat, pc: Pc, free: nat, calls: nat) {
    var d := Delivery(1, n);
    && 1 in w.stream && 1 in w.pending && w.pending[1] == n && n >= 1
    && n in w.free && w.free[n] == free && (forall c :: c in w.free ==> c <= n)
    && d in w.tasks && w.tasks[d] == Task(n, pc) && OwnConsumers(w)
    && (n > 1 ==> FirstProcessed(limits, w))
    && |CallsOf(w.calls, 1)| == calls
  }

  /** No consumer has more than one delivery, so none claims while a handler of its own runs. */
  ghost predicate OwnConsumers(w: World) {
    forall e :: e in w.tasks ==> w.tasks[e].consumer == e.number
  }

  predicate FirstProcessed(limits: Limits, w: World) {
    var first := Delivery(1, 1);
    first in w.tasks && w.tasks[first] == Task(1, AckProcessed(limits.maxRetries)) && 1 in w.free
  }

  lemma OneCallMore(calls: seq<Call>, call: Call)
    requires call.delivery.id == 1
    ensures |CallsOf(calls + [call], 1)| == |CallsOf(calls, 1)| + 1
  {
    assert (calls + [call])[..|calls|] == calls;
  }

  // ---------------------------------------------------------------- the awaits of one delivery

  /** An await that touches nothing but the coroutine. */
  lemma Quietly(limits: Limits, actions: seq<Action>, w: World, n: nat, pc: Pc, event: Event, next: Pc, free: nat,
                calls: nat)
    returns (more: seq<Action>, after: World)
    requires Run(limits, actions) == Some(w) && Stands(limits, w, n, pc, free, calls)
    requires event == Counted(Some(n)) || event == Envelope(true) || event.Slept?
    requires Next(limits, pc, event) == Some(next) && !next.End?
    ensures Run(limits, more) == Some(after) && Stands(limits, after, n, next, free, calls)
  {
    more, after := GoOn(limits, actions, w, Delivery(1, n), event, next);
  }

  lemma Acquire(limits: Limits, actions: seq<Action>, w: World, n: nat, k: nat, free: nat, calls: nat)
    returns (more: seq<Action>, after: World)
    requires Run(limits, actions) == Some(w) && Stands(limits, w, n, Wait(k), free + 1, calls)
    ensures Run(limits, more) == Some(after) && Stands(limits, after, n, Process(k), free, calls + 1)
  {
    more, after := GoOn(limits, actions, w, Delivery(1, n), Acquired, Process(k));
    OneCallMore(w.calls, Call(Delivery(1, n), k));
  }

  lemma Fail(limits: Limits, actions: seq<Action>, w: World, n: nat, k: nat, free: nat, calls: nat)
    returns (more: seq<Action>, after: World)
    requires Run(limits, actions) == Some(w) && Stands(limits, w, n, Process(k), free, calls)
    requires k < limits.maxRetries
    ensures Run(limits, more) == Some(after) && Stands(limits, after, n, Sleep(k), free + 1, calls)
  {
    more, after := GoOn(limits, actions, w, Delivery(1, n), Processed(Raises("")), Sleep(k));
  }

  lemma Return(limits: Limits, actions: seq<Action>, w: World, n: nat, k: nat, free: nat, calls: nat)
    returns (more: seq<Action>, after: World)
    requires Run(limits, actions) == Some(w) && Stands(limits, w, n, Process(k), free, calls)
    requires k == limits.maxRetries
    ensures Run(limits, more) == Some(after) && Stands(limits, after, n, AckProcessed(k), free, calls)
    ensures FirstProcessed(limits, after)
  {
    more, after := GoOn(limits, actions, w, Delivery(1, n), Processed(Returns), AckProcessed(k));
  }

  lemma FailedAttempt(limits: Limits, actions: seq<Action>, w: World, n: nat, k: nat, free: nat, calls: nat)
    returns (more: seq<Action>, after: World)
    requires Run(limits, actions) == Some(w) && Stands(limits, w, n, Wait(k), free + 1, calls)
    requires k < limits.maxRetries
    ensures Run(limits, more) == Some(after) && Stands(limits, after, n, Wait(k + 1), free + 1, calls + 1)
  {
    more, after := Acquire(limits, actions, w, n, k, free, calls);
    more, after := Fail(limits, more, after, n, k, free, calls + 1);
    more, after := Quietly(limits, more, after, n, Sleep(k), Slept, Wait(k + 1), free + 1, calls + 1);
  }

  lemma LastAttempt(limits: Limits, actions: seq<Action>, w: World, n: nat, free: nat, calls: nat)
    returns (more: seq<Action>, after: World)
    requires Run(limits, actions) == Some(w) && Stands(limits, w, n, Wait(limits.maxRetries), free + 1, calls)
    ensures Run(limits, more) == Some(after) && FirstProcessed(limits, after)
    ensures Stands(limits, after, n, AckProcessed(limits.maxRetries), free, calls + 1)
  {
    more, after := Acquire(limits, actions, w, n, limits.maxRetries, free, calls);
    more, after := Return(limits, more, after, n, limits.maxRetries, free, calls + 1);
  }

  /** All the attempts from the k-th on: the last one returns, and its XACK is still to come. */
  lemma {:induction false} Attempts(limits: Limits, actions: seq<Action>, w: World, n: nat, k: nat, free: nat,
                                    calls: nat)
    returns (more: seq<Action>, after: World)
    requires Run(limits, actions) == Some(w) && Stands(limits, w, n, Wait(k), free + 1, calls)
    requires 1 <= k <= limits.maxRetries
    ensures Run(limits, more) == Some(after) && FirstProcessed(limits, after)
    ensures Stands(limits, after, n, AckProcessed(limits.maxRetries), free, calls + (limits.maxRetries - k + 1))
    decreases limits.maxRetries - k
  {
    if k == limits.maxRetries {
      more, after := LastAttempt(limits, actions, w, n, free, calls);
    } else {
      more, after := FailedAttempt(limits, actions, w, n, k, free, calls);
      more, after := Attempts(limits, more, after, n, k + 1, free, calls + 1);
    }
  }

  lemma Handle(limits: Limits, actions: seq<Action>, w: World, n: nat, calls: nat)
    returns (more: seq<Action>, after: World)
    requires Run(limits, actions) == Some(w) && Stands(limits, w, n, Parse, 1, calls) && limits.maxRetries >= 1
    ensures Run(limits, more) == Some(after) && FirstProcessed(limits, after)
    ensures Stands(limits, after, n, AckProcessed(limits.maxRetries), 0, calls + limits.maxRetries)
  {
    more, after := Quietly(limits, actions, w, n, Parse, Envelope(true), Wait(1), 1, calls);
    more, after := Attempts(limits, more, after, n, 1, 0, calls);
  }

  // ---------------------------------------------------------------- the deliveries within the limit

  /** A consumer with one slot has read the only entry there is. */
  lemma OneEntryRead(limits: Limits) returns (actions: seq<Action>, w: World)
    ensures Run(limits, actions) == Some(w) && Stands(limits, w, 1, Parse, 1, 0)
  {
    actions, w := [], INITIAL;
    actions, w := RunMore(limits, actions, w, Produce);
    actions, w := RunMore(limits, actions, w, CreateGroup(Some(0)));
    actions, w := RunMore(limits, actions, w, Start(1, 1));
    assert w.stream == {1};
    actions, w := RunMore(limits, actions, w, Read(1, 1));
  }

  /** A new consumer claims the entry. */
  lemma ClaimAgain(limits: Limits, actions: seq<Action>, w: World, n: nat, calls: nat)
    returns (more: seq<Action>, after: World)
    requires Run(limits, actions) == Some(w) && FirstProcessed(limits, w)
    requires Stands(limits, w, n, AckProcessed(limits.maxRetries), 0, calls)
    ensures Run(limits, more) == Some(after) && Stands(limits, after, n + 1, Count, 1, calls)
  {
    more, after := RunMore(limits, actions, w, Start(n + 1, 1));
    more, after := RunMore(limits, more, after, Claim(n + 1, 1));
  }

  /** `n` deliveries, each within the limit, each with all its attempts, none of them ACKed yet. */
  lemma {:induction false} Deliveries(limits: Limits, n: nat) returns (actions: seq<Action>, w: World)
    requires limits.maxRetries >= 1 && 1 <= n <= Max(1, limits.maxDeliveries)
    ensures Run(limits, actions) == Some(w) && FirstProcessed(limits, w)
    ensures Stands(limits, w, n, AckProcessed(limits.maxRetries), 0, Times(n, limits.maxRetries))
  {
    if n == 1 {
      actions, w := OneEntryRead(limits);
      actions, w := Handle(limits, actions, w, 1, 0);
      assert Times(1, limits.maxRetries) == limits.maxRetries;
    } else {
      var calls := Times(n - 1, limits.maxRetries);
      actions, w := Deliveries(limits, n - 1);
      actions, w := ClaimAgain(limits, actions, w, n - 1, calls);
      actions, w := Quietly(limits, actions, w, n, Count, Counted(Some(n)), Parse, 1, calls);
      actions, w := Handle(limits, actions, w, n, calls);
    }
  }

  // ---------------------------------------------------------------- the delivery too many

  /** The entry is claimed once more, and only then the first delivery ACKs it: the claim finds no row to count. */
  lemma ClaimOvertaken(limits: Limits) returns (actions: seq<Action>, w: World, d: Delivery)
    requires limits.maxRetries >= 1
    ensures Run(limits, actions) == Some(w) && OwnConsumers(w)
    ensures d.id == 1 && d in w.tasks && w.tasks[d] == Task(d.number, Count)
    ensures 1 !in w.pending && d.number in w.free && w.free[d.number] == 1
    ensures |CallsOf(w.calls, 1)| == Max(1, limits.maxDeliveries) * limits.maxRetries
  {
    var n := Max(1, limits.maxDeliveries);
    d := Delivery(1, n + 1);
    TimesIsProduct(n, n, limits.maxRetries);
    actions, w := Deliveries(limits, n);
    actions, w := ClaimAgain(limits, actions, w, n, Times(n, limits.maxRetries));
    actions, w := FirstAcks(limits, actions, w, n + 1, Times(n, limits.maxRetries));
  }

  lemma FirstAcks(limits: Limits, actions: seq<Action>, w: World, n: nat, calls: nat)
    returns (more: seq<Action>, after: World)
    requires Run(limits, actions) == Some(w) && Stands(limits, w, n, Count, 1, calls) && n > 1
    ensures Run(limits, more) == Some(after) && OwnConsumers(after) && after.calls == w.calls
    ensures Delivery(1, n) in after.tasks && after.tasks[Delivery(1, n)] == Task(n, Count)
    ensures 1 !in after.pending && n in after.free && after.free[n] == 1
  {
    more, after := RunMore(limits, actions, w, Await(Delivery(1, 1), Acked(Done)));
  }

  /** The coroutine that could not read its count goes on to the handler. */
  lemma HandledUncounted(limits: Limits, actions: seq<Action>, w: World, d: Delivery)
    returns (more: seq<Action>, after: World)
    requires Run(limits, actions) == Some(w) && d.id == 1 && d in w.tasks && w.tasks[d] == Task(d.number, Count)
    requires limits.maxRetries >= 1 && d.number in w.free && w.free[d.number] == 1
    ensures Run(limits, more) == Some(after) && actions <= more
    ensures |CallsOf(after.calls, 1)| == |CallsOf(w.calls, 1)| + 1
  {
    more, after := GoOn(limits, actions, w, d, Counted(None), Parse);
    more, after := GoOn(limits, more, after, d, Envelope(true), Wait(1));
    OneCallMore(w.calls, Call(d, 1));
    more, after := GoOn(limits, more, after, d, Acquired, Process(1));
  }

  /**
   The limit needs the counts. Whatever the two limits are, there is a run on which Redis answers every command,
   every delivery is to a consumer of its own, and the handler is called once more than the limits allow: when the
   last claim asks, no count is possible any more.
   */
  lemma LimitNeedsCounts(limits: Limits) returns (actions: seq<Action>, asked: World, w: World, d: Delivery)
    requires limits.maxRetries >= 1
    ensures Run(limits, actions) == Some(w)
    ensures |CallsOf(w.calls, 1)| == Max(1, limits.maxDeliveries) * limits.maxRetries + 1
    ensures d in asked.tasks && asked.tasks[d].pc.Count? && OwnConsumers(asked)
    ensures forall n: nat :: !Possible(asked, d, Counted(Some(n)))
    ensures exists before :: before <= actions && Run(limits, before) == Some(asked)
  {
    var before;
    before, asked, d := ClaimOvertaken(limits);
    actions, w := HandledUncounted(limits, before, asked, d);
  }
}
