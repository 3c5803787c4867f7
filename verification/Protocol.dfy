/**
 The consumer group as a whole: a Redis stream with its group, and any number of consumer processes whose
 handler coroutines interleave freely. One action is one Redis command, one await of a coroutine, or one
 act of the environment.

 What is assumed of Redis: XREADGROUP `>` delivers the entries that are still in the stream, in order,
 each once, with delivery count 1; XAUTOCLAIM of a pending entry adds one to its count, and one that was
 trimmed either comes back without fields (Redis 6.2) or is dropped from the pending list (Redis 7); XACK
 removes an entry from the pending list; a write whose reply was lost may or may not have been applied. Nothing is
 assumed about time, so an entry may be claimed while its handler still runs.
 */
module Protocol {
  import opened Common
  import opened HandlerTask

  /** The n-th time that Redis hands out an entry. */
  datatype Delivery = Delivery(id: nat, number: nat)

  /** The coroutine that handles a delivery. */
  datatype Task = Task(consumer: nat, pc: Pc)

  /** One call of `process_message`. */
  datatype Call = Call(delivery: Delivery, attempt: nat)

  datatype World = World(
    // Redis: entries are numbered 1, 2, ... in the order of their ids
    last: nat,
    stream: set<nat>,
    groupStart: Option<nat>,
    cursor: nat,
    pending: map<nat, nat>,       // entry -> times delivered
    // processes
    tasks: map<Delivery, Task>,
    slots: map<nat, nat>,         // live consumer -> `concurrency`
    free: map<nat, nat>,          // live consumer -> free slots of its semaphore
    // history
    delivered: map<nat, nat>,     // entry -> deliveries so far
    returned: set<nat>,           // process_message has returned for it
    deadLettered: set<nat>,       // a DLQ record of it has been written
    gone: set<nat>,               // a claim found it trimmed from the stream
    blind: set<Delivery>,          // deliveries whose count could not be read
    calls: seq<Call>)

  datatype Action =
    | Produce
    | Trim(id: nat)
    | CreateGroup(at: Option<nat>)   // after this id, or after the last one (`$`)
    | Start(consumer: nat, concurrency: nat)
    | Crash(consumer: nat)
    | Read(consumer: nat, id: nat)
    | Claim(consumer: nat, id: nat)
    | Drop(id: nat)                  // an XAUTOCLAIM of Redis 7 meets a trimmed entry
    | Await(task: Delivery, event: Event)
    | Cancel(task: Delivery)

  const INITIAL: World :=
    World(0, {}, None, 0, map[], map[], map[], map[], map[], {}, {}, {}, {}, [])

  /** The entry that XREADGROUP `>` delivers next. */
  predicate IsNext(w: World, id: nat) {
    && id in w.stream && w.cursor < id
    && forall other :: other in w.stream && w.cursor < other ==> id <= other
  }

  /** Whether the environment can give this answer to the coroutine of `d` now. */
  predicate Possible(w: World, d: Delivery, event: Event)
    requires d in w.tasks
  {
    match event
    case Counted(Some(deliveries)) => d.id in w.pending && w.pending[d.id] == deliveries
    case Acquired => w.tasks[d].consumer in w.free && w.free[w.tasks[d].consumer] > 0
    case _ => true
  }

  function Release(w: World, consumer: nat): World {
    if consumer in w.free then w.(free := w.free[consumer := w.free[consumer] + 1]) else w
  }

  /** What an await does outside its own coroutine. */
  function Effect(w: World, d: Delivery, event: Event): World
    requires d in w.tasks && Possible(w, d, event)
  {
    var task := w.tasks[d];
    match event
    case Counted(None) => w.(blind := w.blind + {d})
    case Acquired =>
      w.(free := w.free[task.consumer := w.free[task.consumer] - 1],
         calls := w.calls + (if task.pc.Wait? then [Call(d, task.pc.attempt)] else []))
    case Processed(Returns) => w.(returned := w.returned + {d.id})
    case Processed(_) => Release(w, task.consumer)
    case Acked(reply) =>
      var acked := if Applied(reply) then w.(pending := w.pending - {d.id}) else w;
      if task.pc.AckProcessed? then Release(acked, task.consumer) else acked
    case DeadLettered(reply) =>
      if Applied(reply) then w.(deadLettered := w.deadLettered + {d.id}) else w
    case _ => w
  }

  function Resume(limits: Limits, w: World, d: Delivery, event: Event): Option<World> {
    if d !in w.tasks || !Possible(w, d, event) then None
    else
      var next := Next(limits, w.tasks[d].pc, event);
      if next.None? then None
      else
        var after := Effect(w, d, event);
        Some(after.(tasks := if next.value.End? then w.tasks - {d}
                             else w.tasks[d := w.tasks[d].(pc := next.value)]))
  }

  /** Redis hands out delivery `d` to a coroutine of `consumer`. */
  function HandOut(w: World, consumer: nat, d: Delivery, pc: Pc): World {
    w.(pending := w.pending[d.id := d.number], delivered := w.delivered[d.id := d.number],
       tasks := w.tasks[d := Task(consumer, pc)])
  }

  /** One action, or `None` when it is not possible in `w`. */
  function Step(limits: Limits, w: World, action: Action): Option<World> {
    match action
    case Produce => Some(w.(last := w.last + 1, stream := w.stream + {w.last + 1}))
    case Trim(id) => Some(w.(stream := w.stream - {id}))
    case CreateGroup(at) =>
      if w.groupStart.Some? then Some(w)  // BUSYGROUP: the group keeps its position
      else
        var start := if at.None? then w.last else at.value;
        Some(w.(groupStart := Some(start), cursor := start))
    case Start(consumer, concurrency) =>
      if consumer in w.free then None
      else Some(w.(slots := w.slots[consumer := concurrency], free := w.free[consumer := concurrency]))
    case Crash(consumer) =>
      Some(w.(tasks := map d | d in w.tasks && w.tasks[d].consumer != consumer :: w.tasks[d],
              slots := w.slots - {consumer}, free := w.free - {consumer}))
    case Read(consumer, id) =>
      if w.groupStart.None? || consumer !in w.free || !IsNext(w, id) then None
      else Some(HandOut(w.(cursor := id), consumer, Delivery(id, 1), Parse))
    case Claim(consumer, id) =>
      if consumer !in w.free || id !in w.pending then None
      else
        var d := Delivery(id, w.pending[id] + 1);
        Some(if id in w.stream then HandOut(w, consumer, d, Count)
             else HandOut(w.(gone := w.gone + {id}), consumer, d, AckTrimmed))
    case Drop(id) =>
      if id !in w.pending || id in w.stream then None
      else Some(w.(pending := w.pending - {id}, gone := w.gone + {id}))
    case Await(d, event) => Resume(limits, w, d, event)
    case Cancel(d) =>
      if d !in w.tasks then None
      else
        var without := w.(tasks := w.tasks - {d});
        Some(if Holds(w.tasks[d].pc) then Release(without, w.tasks[d].consumer) else without)
  }

  function Run(limits: Limits, actions: seq<Action>): Option<World> {
    if actions == [] then Some(INITIAL)
    else
      var before := Run(limits, actions[..|actions| - 1]);
      if before.None? then None else Step(limits, before.value, actions[|actions| - 1])
  }

  /** What an await of the coroutine of `d` leaves alone, and what it changes outside the coroutine. */
  ghost predicate Affected(w: World, d: Delivery, event: Event, after: World) {
    && d in w.tasks
    && after.last == w.last && after.stream == w.stream
    && after.groupStart == w.groupStart && after.cursor == w.cursor
    && after.delivered == w.delivered && after.gone == w.gone
    && after.pending == (if event.Acked? && Applied(event.reply) then w.pending - {d.id} else w.pending)
    && after.returned == (if event == Processed(Returns) then w.returned + {d.id} else w.returned)
    && after.deadLettered ==
         (if event.DeadLettered? && Applied(event.reply) then w.deadLettered + {d.id} else w.deadLettered)
    && after.blind == (if event == Counted(None) then w.blind + {d} else w.blind)
    && after.calls ==
         w.calls + (if event.Acquired? && w.tasks[d].pc.Wait? then [Call(d, w.tasks[d].pc.attempt)] else [])
    && (event.Counted? && event.deliveries.Some? ==>
          d.id in w.pending && w.pending[d.id] == event.deliveries.value)
  }

  ghost predicate Awaited(limits: Limits, w: World, d: Delivery, event: Event, after: World) {
    && Affected(w, d, event, after)
    && Next(limits, w.tasks[d].pc, event).Some?
    && (forall e :: e in after.tasks && e != d ==> e in w.tasks && after.tasks[e] == w.tasks[e])
    && (d in after.tasks ==> Next(limits, w.tasks[d].pc, event) == Some(after.tasks[d].pc))
  }

  lemma EffectAffects(w: World, d: Delivery, event: Event)
    requires d in w.tasks && Possible(w, d, event)
    ensures Affected(w, d, event, Effect(w, d, event))
    ensures Effect(w, d, event).tasks == w.tasks
  {
    match event {
      case Acked(reply) => AckAffects(w, d, reply);
      case Acquired => AcquiringAffects(w, d);
      case Processed(outcome) => ProcessingAffects(w, d, outcome);
      case _ => OthersAffect(w, d, event);
    }
  }

  lemma AckAffects(w: World, d: Delivery, reply: Reply)
    requires d in w.tasks
    ensures Affected(w, d, Acked(reply), Effect(w, d, Acked(reply)))
    ensures Effect(w, d, Acked(reply)).tasks == w.tasks
  {
  }

  lemma AcquiringAffects(w: World, d: Delivery)
    requires d in w.tasks && Possible(w, d, Acquired)
    ensures Affected(w, d, Acquired, Effect(w, d, Acquired))
    ensures Effect(w, d, Acquired).tasks == w.tasks
  {
  }

  lemma ProcessingAffects(w: World, d: Delivery, outcome: Attempt)
    requires d in w.tasks
    ensures Affected(w, d, Processed(outcome), Effect(w, d, Processed(outcome)))
    ensures Effect(w, d, Processed(outcome)).tasks == w.tasks
  {
  }

  lemma OthersAffect(w: World, d: Delivery, event: Event)
    requires d in w.tasks && Possible(w, d, event)
    requires !event.Acked? && !event.Acquired? && !event.Processed?
    ensures Affected(w, d, event, Effect(w, d, event))
    ensures Effect(w, d, event).tasks == w.tasks
  {
  }

  lemma ResumeIsAwaited(limits: Limits, w: World, d: Delivery, event: Event)
    requires Resume(limits, w, d, event).Some?
    ensures Awaited(limits, w, d, event, Resume(limits, w, d, event).value)
  {
    EffectAffects(w, d, event);
  }

  // ---------------------------------------------------------------- no message is lost

  /** The entry left the pending list for a good reason. */
  predicate Settled(w: World, id: nat) {
    id in w.returned || id in w.deadLettered || id in w.gone
  }

  ghost predicate Kept(w: World) {
    && (forall id :: id in w.pending ==> id in w.delivered)
    && (forall id :: id in w.delivered ==> id in w.pending || Settled(w, id))
    && (forall d :: d in w.tasks ==>
          && d.id in w.delivered
          && (w.tasks[d].pc.AckProcessed? ==> d.id in w.returned)
          && (w.tasks[d].pc.AckDlq? ==> d.id in w.deadLettered)
          && (w.tasks[d].pc.AckTrimmed? ==> d.id in w.gone))
  }

  lemma KeptByAwait(limits: Limits, w: World, d: Delivery, event: Event, after: World)
    requires Kept(w) && Awaited(limits, w, d, event, after)
    ensures Kept(after)
  {
    if event.Acked? {
      KeptByAck(limits, w, d, event.reply, after);
    } else {
      KeptByOtherAwait(limits, w, d, event, after);
    }
  }

  lemma KeptByAck(limits: Limits, w: World, d: Delivery, reply: Reply, after: World)
    requires Kept(w) && Awaited(limits, w, d, Acked(reply), after)
    ensures Kept(after)
  {
    assert Settled(w, d.id);
  }

  lemma KeptByOtherAwait(limits: Limits, w: World, d: Delivery, event: Event, after: World)
    requires Kept(w) && Awaited(limits, w, d, event, after) && !event.Acked?
    ensures Kept(after)
  {
  }

  lemma KeptByHandOut(w: World, consumer: nat, d: Delivery, pc: Pc)
    requires Kept(w) && !pc.AckProcessed? && !pc.AckDlq? && (pc.AckTrimmed? ==> d.id in w.gone)
    ensures Kept(HandOut(w, consumer, d, pc))
  {
  }

  lemma KeptSame(w: World, after: World)
    requires Kept(w)
    requires after.pending == w.pending && after.delivered == w.delivered && after.gone == w.gone
    requires after.returned == w.returned && after.deadLettered == w.deadLettered
    requires forall d :: d in after.tasks ==> d in w.tasks && after.tasks[d] == w.tasks[d]
    ensures Kept(after)
  {
  }

  lemma KeptByProcesses(limits: Limits, w: World, action: Action)
    requires Kept(w) && Step(limits, w, action).Some?
    requires !action.Await? && !action.Read? && !action.Claim? && !action.Drop?
    ensures Kept(Step(limits, w, action).value)
  {
    KeptSame(w, Step(limits, w, action).value);
  }

  lemma KeptByClaim(limits: Limits, w: World, consumer: nat, id: nat)
    requires Kept(w) && Step(limits, w, Claim(consumer, id)).Some?
    ensures Kept(Step(limits, w, Claim(consumer, id)).value)
  {
    var d := Delivery(id, w.pending[id] + 1);
    var after := Step(limits, w, Claim(consumer, id)).value;
    if id in w.stream {
      assert after == HandOut(w, consumer, d, Count);
      KeptByHandOut(w, consumer, d, Count);
    } else {
      assert after == HandOut(w.(gone := w.gone + {id}), consumer, d, AckTrimmed);
      KeptByHandOut(w.(gone := w.gone + {id}), consumer, d, AckTrimmed);
    }
  }

  lemma KeptByDrop(limits: Limits, w: World, id: nat)
    requires Kept(w) && Step(limits, w, Drop(id)).Some?
    ensures Kept(Step(limits, w, Drop(id)).value)
  {
  }

  lemma KeptByStep(limits: Limits, w: World, action: Action)
    requires Kept(w) && Step(limits, w, action).Some?
    ensures Kept(Step(limits, w, action).value)
  {
    match action {
      case Await(d, event) =>
        ResumeIsAwaited(limits, w, d, event);
        KeptByAwait(limits, w, d, event, Step(limits, w, action).value);
      case Read(consumer, id) => KeptByHandOut(w.(cursor := id), consumer, Delivery(id, 1), Parse);
      case Claim(consumer, id) => KeptByClaim(limits, w, consumer, id);
      case Drop(id) => KeptByDrop(limits, w, id);
      case _ => KeptByProcesses(limits, w, action);
    }
  }

  lemma {:induction false} KeptByRun(limits: Limits, actions: seq<Action>)
    requires Run(limits, actions).Some?
    ensures Kept(Run(limits, actions).value)
  {
    if actions == [] {
    } else {
      KeptByRun(limits, actions[..|actions| - 1]);
      KeptByStep(limits, Run(limits, actions[..|actions| - 1]).value, actions[|actions| - 1]);
    }
  }

  // ---------------------------------------------------------------- every entry is accounted for

  /** The part of the stream that the group has passed. */
  ghost predicate Ordered(w: World) {
    && (w.cursor <= w.last || w.groupStart == Some(w.cursor))
    && (forall id :: id in w.stream ==> 1 <= id <= w.last)
    && (w.groupStart.None? ==> w.cursor == 0 && w.delivered == map[])
    && (w.groupStart.Some? ==>
          && w.groupStart.value <= w.cursor
          && (forall id :: id in w.delivered ==> w.groupStart.value < id <= w.cursor)
          && (forall id :: w.groupStart.value < id <= w.cursor && id in w.stream ==> id in w.delivered))
  }

  lemma OrderedByStep(limits: Limits, w: World, action: Action)
    requires Ordered(w) && Kept(w) && Step(limits, w, action).Some?
    ensures Ordered(Step(limits, w, action).value)
  {
    if action.Await? {
      ResumeIsAwaited(limits, w, action.task, action.event);
    } else if action.Read? {
      OrderedByRead(limits, w, action.consumer, action.id);
    } else if action.Claim? {
      OrderedByClaim(limits, w, action.consumer, action.id);
    }
  }

  lemma OrderedByRead(limits: Limits, w: World, consumer: nat, id: nat)
    requires Ordered(w) && Step(limits, w, Read(consumer, id)).Some?
    ensures Ordered(Step(limits, w, Read(consumer, id)).value)
  {
  }

  lemma OrderedByClaim(limits: Limits, w: World, consumer: nat, id: nat)
    requires Ordered(w) && Kept(w) && Step(limits, w, Claim(consumer, id)).Some?
    ensures Ordered(Step(limits, w, Claim(consumer, id)).value)
  {
  }

  lemma {:induction false} OrderedByRun(limits: Limits, actions: seq<Action>)
    requires Run(limits, actions).Some?
    ensures Ordered(Run(limits, actions).value)
  {
    if actions == [] {
    } else {
      KeptByRun(limits, actions[..|actions| - 1]);
      OrderedByRun(limits, actions[..|actions| - 1]);
      OrderedByStep(limits, Run(limits, actions[..|actions| - 1]).value, actions[|actions| - 1]);
    }
  }

  /** An existing group keeps its start, and its position only moves on; creating it again changes nothing. */
  lemma GroupKeepsPosition(limits: Limits, before: seq<Action>, action: Action)
    requires Run(limits, before).Some? && Run(limits, before).value.groupStart.Some?
    requires Step(limits, Run(limits, before).value, action).Some?
    ensures var w, after := Run(limits, before).value, Step(limits, Run(limits, before).value, action).value;
            && after.groupStart == w.groupStart && w.cursor <= after.cursor
            && (action.CreateGroup? ==> after == w)
  {
    OrderedByRun(limits, before);
    if action.Await? {
      ResumeIsAwaited(limits, Run(limits, before).value, action.task, action.event);
    }
  }

  /**
   No message is lost. In every reachable state an entry that was ever added is still to be delivered, or
   was there before the group's start, or was trimmed before its delivery, or is pending, or it left the
   pending list after `process_message` returned for it, after its DLQ record was written, or because a
   claim found it trimmed.
   */
  lemma NoMessageLost(limits: Limits, actions: seq<Action>, id: nat)
    requires Run(limits, actions).Some?
    requires 1 <= id <= Run(limits, actions).value.last
    ensures var w := Run(limits, actions).value;
            && (id in w.delivered ==> id in w.pending || Settled(w, id))
            && (id !in w.delivered ==>
                  || w.groupStart.None?
                  || id <= w.groupStart.value
                  || w.cursor < id
                  || id !in w.stream)
  {
    KeptByRun(limits, actions);
    OrderedByRun(limits, actions);
  }

  /** Redis itself took it off because it was trimmed. */
  predicate IsDropped(w: World, action: Action, id: nat) {
    action == Drop(id) && id !in w.stream
  }

  lemma LeavesByStep(limits: Limits, w: World, action: Action, id: nat)
    requires Kept(w) && Step(limits, w, action).Some?
    requires id in w.pending && id !in Step(limits, w, action).value.pending
    ensures Settled(w, id) || IsDropped(w, action, id)
  {
    if action.Await? {
      ResumeIsAwaited(limits, w, action.task, action.event);
      assert action.event.Acked? && action.task.id == id;
    }
  }

  /** The moment of leaving: an action that takes an entry off the pending list finds it settled already, or trimmed. */
  lemma LeavesOnlySettled(limits: Limits, before: seq<Action>, action: Action, id: nat)
    requires Run(limits, before).Some? && Step(limits, Run(limits, before).value, action).Some?
    requires id in Run(limits, before).value.pending
    requires id !in Step(limits, Run(limits, before).value, action).value.pending
    ensures Settled(Run(limits, before).value, id) || IsDropped(Run(limits, before).value, action, id)
  {
    KeptByRun(limits, before);
    LeavesByStep(limits, Run(limits, before).value, action, id);
  }

  // ---------------------------------------------------------------- deliveries are numbered

  /** Deliveries of an entry are numbered 1, 2, ...; a coroutine or a call belongs to one that has happened. */
  ghost predicate Numbered(w: World) {
    && (forall id :: id in w.pending ==> id in w.delivered && w.delivered[id] == w.pending[id])
    && (forall d :: d in w.tasks ==> Happened(w, d))
    && (forall call :: call in w.calls ==> Happened(w, call.delivery))
  }

  predicate Happened(w: World, d: Delivery) {
    d.id in w.delivered && 1 <= d.number <= w.delivered[d.id]
  }

  lemma NumberedByAwait(limits: Limits, w: World, d: Delivery, event: Event, after: World)
    requires Numbered(w) && Awaited(limits, w, d, event, after)
    ensures Numbered(after)
  {
    assert forall e :: Happened(w, e) ==> Happened(after, e);
    assert forall call :: call in after.calls ==> call in w.calls || call.delivery == d;
  }

  lemma NumberedByHandOut(w: World, consumer: nat, d: Delivery, pc: Pc)
    requires Numbered(w)
    requires d.number == (if d.id in w.delivered then w.delivered[d.id] else 0) + 1
    ensures Numbered(HandOut(w, consumer, d, pc))
  {
    var after := HandOut(w, consumer, d, pc);
    assert forall e :: Happened(w, e) ==> Happened(after, e);
  }

  lemma NumberedByStep(limits: Limits, w: World, action: Action)
    requires Numbered(w) && Ordered(w) && Step(limits, w, action).Some?
    ensures Numbered(Step(limits, w, action).value)
  {
    match action {
      case Await(d, event) =>
        ResumeIsAwaited(limits, w, d, event);
        NumberedByAwait(limits, w, d, event, Step(limits, w, action).value);
      case Read(consumer, id) =>
        NumberedSame(w, w.(cursor := id));
        NumberedByHandOut(w.(cursor := id), consumer, Delivery(id, 1), Parse);
      case Claim(consumer, id) => NumberedByClaim(limits, w, consumer, id);
      case _ =>
        NumberedSame(w, Step(limits, w, action).value);
    }
  }

  lemma NumberedByClaim(limits: Limits, w: World, consumer: nat, id: nat)
    requires Numbered(w) && Step(limits, w, Claim(consumer, id)).Some?
    ensures Numbered(Step(limits, w, Claim(consumer, id)).value)
  {
    var d := Delivery(id, w.pending[id] + 1);
    if id in w.stream {
      NumberedByHandOut(w, consumer, d, Count);
    } else {
      var marked := w.(gone := w.gone + {id});
      NumberedSame(w, marked);
      NumberedByHandOut(marked, consumer, d, AckTrimmed);
    }
  }

  lemma NumberedSame(w: World, after: World)
    requires Numbered(w)
    requires forall id :: id in after.pending ==> id in w.pending && after.pending[id] == w.pending[id]
    requires after.delivered == w.delivered && after.calls == w.calls
    requires forall d :: d in after.tasks ==> d in w.tasks
    ensures Numbered(after)
  {
    assert forall e :: Happened(w, e) ==> Happened(after, e);
  }

  lemma {:induction false} NumberedByRun(limits: Limits, actions: seq<Action>)
    requires Run(limits, actions).Some?
    ensures Numbered(Run(limits, actions).value)
  {
    if actions == [] {
    } else {
      NumberedByRun(limits, actions[..|actions| - 1]);
      OrderedByRun(limits, actions[..|actions| - 1]);
      NumberedByStep(limits, Run(limits, actions[..|actions| - 1]).value, actions[|actions| - 1]);
    }
  }
}
