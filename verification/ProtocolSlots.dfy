/** The semaphore of each consumer, in every interleaving of its coroutines. */
module ProtocolSlots {
  import opened HandlerTask
  import opened Protocol

  /** The coroutines of a consumer that are inside an attempt. */
  function Inside(w: World, consumer: nat): set<Delivery> {
    set t | t in w.tasks && IsInside(w.tasks[t], consumer)
  }

  predicate IsInside(task: Task, consumer: nat) {
    task.consumer == consumer && Holds(task.pc)
  }

  ghost predicate Conserved(w: World) {
    && w.free.Keys == w.slots.Keys
    && (forall t :: t in w.tasks ==> w.tasks[t].consumer in w.free)
    && (forall c :: c in w.free ==> w.free[c] + |Inside(w, c)| == w.slots[c])
  }

  /** Whether only the coroutine `t` differs. */
  ghost predicate OnlyTask(w: World, after: World, t: Delivery) {
    && (forall u :: u != t ==> (u in w.tasks <==> u in after.tasks))
    && (forall u :: u != t && u in w.tasks ==> after.tasks[u] == w.tasks[u])
  }

  function Counts(w: World, consumer: nat, t: Delivery): nat {
    if t in w.tasks && IsInside(w.tasks[t], consumer) then 1 else 0
  }

  lemma OneElement(a: set<Delivery>, b: set<Delivery>, t: Delivery)
    requires a - {t} == b - {t}
    ensures |a| == |b| - (if t in b then 1 else 0) + (if t in a then 1 else 0)
  {
    assert t in a ==> a == (a - {t}) + {t};
    assert t in b ==> b == (b - {t}) + {t};
    assert t !in a ==> a == a - {t};
    assert t !in b ==> b == b - {t};
  }

  lemma InsideAfter(w: World, after: World, t: Delivery, c: nat)
    requires OnlyTask(w, after, t)
    ensures |Inside(after, c)| == |Inside(w, c)| - Counts(w, c, t) + Counts(after, c, t)
  {
    forall u | u != t
      ensures u in Inside(after, c) <==> u in Inside(w, c)
    {
    }
    OneElement(Inside(after, c), Inside(w, c), t);
  }

  /** What a step of the coroutine `t` does to the semaphores: a slot is taken or given back with `Holds`. */
  lemma FreeAfter(limits: Limits, w: World, t: Delivery, event: Event, c: nat)
    requires Resume(limits, w, t, event).Some? && c in w.free
    requires w.tasks[t].consumer in w.free
    ensures var after := Resume(limits, w, t, event).value;
            && after.free.Keys == w.free.Keys && after.slots == w.slots
            && after.free[c] + Counts(after, c, t) == w.free[c] + Counts(w, c, t)
  {
    var task := w.tasks[t];
    var after := Resume(limits, w, t, event).value;
    EffectOnFree(w, t, event, c);
    assert Next(limits, task.pc, event).Some?;
  }

  /** What an await does to the free slots of the consumer of its coroutine. */
  function Given(pc: Pc, event: Event): int {
    if event.Acquired? then -1
    else if event.Processed? && !event.outcome.Returns? then 1
    else if event.Acked? && pc.AckProcessed? then 1
    else 0
  }

  lemma EffectOnFree(w: World, t: Delivery, event: Event, c: nat)
    requires t in w.tasks && Possible(w, t, event) && c in w.free && w.tasks[t].consumer in w.free
    ensures var after := Effect(w, t, event);
            && after.free.Keys == w.free.Keys && after.slots == w.slots && after.tasks == w.tasks
            && after.free[c] == w.free[c] + (if c == w.tasks[t].consumer then Given(w.tasks[t].pc, event) else 0)
  {
    if event.Acked? {
      AckOnFree(w, t, event.reply, c);
    }
  }

  lemma AckOnFree(w: World, t: Delivery, reply: Reply, c: nat)
    requires t in w.tasks && c in w.free && w.tasks[t].consumer in w.free
    ensures var after := Effect(w, t, Acked(reply));
            && after.free.Keys == w.free.Keys && after.slots == w.slots && after.tasks == w.tasks
            && after.free[c] == w.free[c] + (if c == w.tasks[t].consumer then Given(w.tasks[t].pc, Acked(reply)) else 0)
  {
  }

  /** A change of one coroutine that pays for its slot. */
  ghost predicate Balanced(w: World, after: World, t: Delivery) {
    && after.slots == w.slots && after.free.Keys == w.free.Keys
    && (forall c :: c in w.free ==> after.free[c] + Counts(after, c, t) == w.free[c] + Counts(w, c, t))
  }

  lemma ConservedWhenBalanced(w: World, after: World, t: Delivery)
    requires Conserved(w) && OnlyTask(w, after, t) && Balanced(w, after, t)
    requires t in after.tasks ==> after.tasks[t].consumer in w.free
    ensures Conserved(after)
  {
    forall c | c in w.free
      ensures after.free[c] + |Inside(after, c)| == after.slots[c]
    {
      InsideAfter(w, after, t, c);
    }
  }

  lemma ConservedByAwait(limits: Limits, w: World, t: Delivery, event: Event)
    requires Conserved(w) && Resume(limits, w, t, event).Some?
    ensures Conserved(Resume(limits, w, t, event).value)
  {
    var after := Resume(limits, w, t, event).value;
    FreeAfter(limits, w, t, event, w.tasks[t].consumer);
    forall c | c in w.free
      ensures after.free[c] + Counts(after, c, t) == w.free[c] + Counts(w, c, t)
    {
      FreeAfter(limits, w, t, event, c);
    }
    ConservedWhenBalanced(w, after, t);
  }

  lemma BalancedByHandOut(w: World, consumer: nat, d: Delivery, pc: Pc)
    requires d !in w.tasks && w.free.Keys == w.slots.Keys && !Holds(pc)
    ensures OnlyTask(w, HandOut(w, consumer, d, pc), d)
    ensures Balanced(w, HandOut(w, consumer, d, pc), d)
  {
  }

  lemma BalancedByCancel(limits: Limits, w: World, d: Delivery)
    requires w.free.Keys == w.slots.Keys && d in w.tasks && w.tasks[d].consumer in w.free
    ensures OnlyTask(w, Step(limits, w, Cancel(d)).value, d)
    ensures Balanced(w, Step(limits, w, Cancel(d)).value, d)
  {
  }

  lemma ConservedByHandOut(w: World, consumer: nat, d: Delivery, pc: Pc)
    requires Conserved(w) && d !in w.tasks && consumer in w.free && !Holds(pc)
    ensures Conserved(HandOut(w, consumer, d, pc))
  {
    BalancedByHandOut(w, consumer, d, pc);
    ConservedWhenBalanced(w, HandOut(w, consumer, d, pc), d);
  }

  lemma SameInside(w: World, after: World, c: nat)
    requires forall t :: t in w.tasks && w.tasks[t].consumer == c ==> t in after.tasks && after.tasks[t] == w.tasks[t]
    requires forall t :: t in after.tasks ==> t in w.tasks && after.tasks[t] == w.tasks[t]
    ensures Inside(after, c) == Inside(w, c)
  {
  }

  lemma ConservedByProcesses(limits: Limits, w: World, action: Action)
    requires Conserved(w) && Step(limits, w, action).Some?
    requires !action.Read? && !action.Claim? && !action.Cancel? && !action.Await?
    ensures Conserved(Step(limits, w, action).value)
  {
    var after := Step(limits, w, action).value;
    forall c | c in after.free
      ensures after.free[c] + |Inside(after, c)| == after.slots[c]
    {
      SameInside(w, after, c);
      if c !in w.free {
        assert Inside(w, c) == {};
      }
    }
  }

  lemma ConservedByStep(limits: Limits, w: World, action: Action)
    requires Conserved(w) && Numbered(w) && Ordered(w) && Step(limits, w, action).Some?
    ensures Conserved(Step(limits, w, action).value)
  {
    match action {
      case Await(d, event) => ConservedByAwait(limits, w, d, event);
      case Read(consumer, id) => ConservedByRead(limits, w, consumer, id);
      case Claim(consumer, id) => ConservedByClaim(limits, w, consumer, id);
      case Cancel(d) =>
        BalancedByCancel(limits, w, d);
        ConservedWhenBalanced(w, Step(limits, w, action).value, d);
      case _ => ConservedByProcesses(limits, w, action);
    }
  }

  lemma ConservedByRead(limits: Limits, w: World, consumer: nat, id: nat)
    requires Conserved(w) && Numbered(w) && Ordered(w) && Step(limits, w, Read(consumer, id)).Some?
    ensures Conserved(Step(limits, w, Read(consumer, id)).value)
  {
    var passed := w.(cursor := id);
    SameConserved(w, passed);
    assert !Happened(w, Delivery(id, 1));
    ConservedByHandOut(passed, consumer, Delivery(id, 1), Parse);
  }

  lemma ConservedByClaim(limits: Limits, w: World, consumer: nat, id: nat)
    requires Conserved(w) && Numbered(w) && Step(limits, w, Claim(consumer, id)).Some?
    ensures Conserved(Step(limits, w, Claim(consumer, id)).value)
  {
    var d := Delivery(id, w.pending[id] + 1);
    NextDeliveryIsNew(w, id);
    var after := Step(limits, w, Claim(consumer, id)).value;
    if id in w.stream {
      assert after == HandOut(w, consumer, d, Count);
      ConservedByHandOut(w, consumer, d, Count);
    } else {
      assert after == HandOut(w.(gone := w.gone + {id}), consumer, d, AckTrimmed);
      ConservedByTrimmedClaim(w, consumer, d);
    }
  }

  lemma NextDeliveryIsNew(w: World, id: nat)
    requires Numbered(w) && id in w.pending
    ensures Delivery(id, w.pending[id] + 1) !in w.tasks
  {
    assert !Happened(w, Delivery(id, w.pending[id] + 1));
  }

  lemma ConservedByTrimmedClaim(w: World, consumer: nat, d: Delivery)
    requires Conserved(w) && d !in w.tasks && consumer in w.free
    ensures Conserved(HandOut(w.(gone := w.gone + {d.id}), consumer, d, AckTrimmed))
  {
    var marked := w.(gone := w.gone + {d.id});
    SameConserved(w, marked);
    ConservedByHandOut(marked, consumer, d, AckTrimmed);
  }

  lemma SameConserved(w: World, after: World)
    requires Conserved(w)
    requires after.tasks == w.tasks && after.free == w.free && after.slots == w.slots
    ensures Conserved(after)
  {
    forall c | c in w.free
      ensures after.free[c] + |Inside(after, c)| == after.slots[c]
    {
      SameInside(w, after, c);
    }
  }

  /**
   Slot conservation: for every live consumer the free slots plus the coroutines inside an attempt are its
   `concurrency`, so at most that many attempts run at once; a coroutine that sleeps between attempts or
   writes to the DLQ is not one of them.
   */
  lemma {:induction false} SlotsConserved(limits: Limits, actions: seq<Action>)
    requires Run(limits, actions).Some?
    ensures var w := Run(limits, actions).value;
            && Conserved(w)
            && (forall c :: c in w.slots ==> |Inside(w, c)| <= w.slots[c])
            && (forall c, t :: t in Inside(w, c) ==> !w.tasks[t].pc.Sleep? && !w.tasks[t].pc.WriteDlq?)
  {
    if actions == [] {
    } else {
      var before := actions[..|actions| - 1];
      SlotsConserved(limits, before);
      NumberedByRun(limits, before);
      OrderedByRun(limits, before);
      ConservedByStep(limits, Run(limits, before).value, actions[|actions| - 1]);
    }
  }
}
