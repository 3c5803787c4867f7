/**
 The delivery limit under the condition that the consumers are told to keep: an entry is claimed only when nobody
 handles it any more (`reclaim_idle_ms` is longer than the longest handling).
 */
module ProtocolPatience {
  import opened Common
  import opened HandlerTask
  import opened Protocol
  import opened ProtocolDeliveries

  /** Whether some coroutine handles the entry. */
  ghost predicate IsLive(w: World, id: nat) {
    exists d :: d in w.tasks && d.id == id
  }

  /**
   An entry is claimed, or dropped as trimmed, only while no coroutine of it is live; and a count is missing only when
   there is no row to count.
   */
  ghost predicate IsPatient(w: World, action: Action) {
    match action
    case Claim(_, id) => !IsLive(w, id)
    case Drop(id) => !IsLive(w, id)
    case Await(d, Counted(None)) => d.id !in w.pending
    case _ => true
  }

  ghost predicate Patient(limits: Limits, actions: seq<Action>)
    requires Run(limits, actions).Some?
  {
    actions == [] ||
    var before := actions[..|actions| - 1];
    Patient(limits, before) && IsPatient(Run(limits, before).value, actions[|actions| - 1])
  }

  /** An entry has at most one coroutine, and one that is about to count its deliveries is pending. */
  ghost predicate Lonely(w: World) {
    && (forall d, e :: d in w.tasks && e in w.tasks && d.id == e.id ==> d == e)
    && (forall d :: d in w.tasks && w.tasks[d].pc.Count? ==> d.id in w.pending)
  }

  lemma LonelyByAwait(limits: Limits, w: World, d: Delivery, event: Event, after: World)
    requires Lonely(w) && Awaited(limits, w, d, event, after)
    ensures Lonely(after)
  {
    forall e | e in after.tasks && after.tasks[e].pc.Count?
      ensures e.id in after.pending
    {
      assert e != d && e in w.tasks && w.tasks[e].pc.Count?;
    }
  }

  lemma LonelyByHandOut(w: World, consumer: nat, d: Delivery, pc: Pc)
    requires Lonely(w) && !IsLive(w, d.id)
    ensures Lonely(HandOut(w, consumer, d, pc))
  {
  }

  lemma LonelyByRead(limits: Limits, w: World, consumer: nat, id: nat)
    requires Lonely(w) && Numbered(w) && Ordered(w) && Step(limits, w, Read(consumer, id)).Some?
    ensures Lonely(Step(limits, w, Read(consumer, id)).value)
  {
    forall d | d in w.tasks
      ensures d.id != id
    {
      assert Happened(w, d);
    }
    var passed := w.(cursor := id);
    assert Lonely(passed);
    LonelyByHandOut(passed, consumer, Delivery(id, 1), Parse);
  }

  lemma LonelyByClaim(limits: Limits, w: World, consumer: nat, id: nat)
    requires Lonely(w) && !IsLive(w, id) && Step(limits, w, Claim(consumer, id)).Some?
    ensures Lonely(Step(limits, w, Claim(consumer, id)).value)
  {
    var d := Delivery(id, w.pending[id] + 1);
    if id in w.stream {
      LonelyByHandOut(w, consumer, d, Count);
    } else {
      var marked := w.(gone := w.gone + {id});
      assert Lonely(marked);
      LonelyByHandOut(marked, consumer, d, AckTrimmed);
    }
  }

  lemma LonelyByDrop(limits: Limits, w: World, id: nat)
    requires Lonely(w) && !IsLive(w, id) && Step(limits, w, Drop(id)).Some?
    ensures Lonely(Step(limits, w, Drop(id)).value)
  {
  }

  lemma LonelyByProcesses(limits: Limits, w: World, action: Action)
    requires Lonely(w) && Step(limits, w, action).Some?
    requires !action.Await? && !action.Read? && !action.Claim? && !action.Drop?
    ensures Lonely(Step(limits, w, action).value)
  {
    var after := Step(limits, w, action).value;
    assert after.pending == w.pending;
    assert forall d :: d in after.tasks ==> d in w.tasks && after.tasks[d] == w.tasks[d];
  }

  lemma LonelyByStep(limits: Limits, w: World, action: Action)
    requires Lonely(w) && Numbered(w) && Ordered(w) && IsPatient(w, action) && Step(limits, w, action).Some?
    ensures Lonely(Step(limits, w, action).value)
  {
    match action {
      case Await(d, event) =>
        ResumeIsAwaited(limits, w, d, event);
        LonelyByAwait(limits, w, d, event, Step(limits, w, action).value);
      case Read(consumer, id) => LonelyByRead(limits, w, consumer, id);
      case Claim(consumer, id) => LonelyByClaim(limits, w, consumer, id);
      case Drop(id) => LonelyByDrop(limits, w, id);
      case _ => LonelyByProcesses(limits, w, action);
    }
  }

  lemma {:induction false} LonelyByRun(limits: Limits, actions: seq<Action>)
    requires Run(limits, actions).Some? && Patient(limits, actions)
    ensures Lonely(Run(limits, actions).value)
  {
    if actions == [] {
    } else {
      var before := actions[..|actions| - 1];
      LonelyByRun(limits, before);
      NumberedByRun(limits, before);
      OrderedByRun(limits, before);
      LonelyByStep(limits, Run(limits, before).value, actions[|actions| - 1]);
    }
  }

  lemma NoCountIsMissing(limits: Limits, w: World, action: Action)
    requires Lonely(w) && IsPatient(w, action) && Step(limits, w, action).Some?
    ensures !(action.Await? && action.event == Counted(None))
  {
    if action.Await? && action.event.Counted? {
      assert w.tasks[action.task].pc.Count?;
    }
  }

  /** A coroutine that asks for a count is then the only one of its entry, and the row is there. */
  lemma {:induction false} PatientCountsAreRead(limits: Limits, actions: seq<Action>)
    requires Run(limits, actions).Some? && Patient(limits, actions)
    ensures CountsAreRead(actions)
  {
    if actions == [] {
    } else {
      var before, last := actions[..|actions| - 1], actions[|actions| - 1];
      var w := Run(limits, before).value;
      PatientCountsAreRead(limits, before);
      LonelyByRun(limits, before);
      NoCountIsMissing(limits, w, last);
      assert forall i :: 0 <= i < |before| ==> actions[i] == before[i];
    }
  }

  /**
   The delivery limit for patient consumers: the handler is called for an entry on at most max(1, max_deliveries)
   deliveries, `max_retries` times on each.
   */
  lemma DeliveryLimitWhenPatient(limits: Limits, actions: seq<Action>, id: nat)
    requires Run(limits, actions).Some? && Patient(limits, actions)
    ensures |CallsOf(Run(limits, actions).value.calls, id)| <= Max(1, limits.maxDeliveries) * limits.maxRetries
  {
    PatientCountsAreRead(limits, actions);
    DeliveryLimitWhenCountsAreRead(limits, actions, id);
  }
}
