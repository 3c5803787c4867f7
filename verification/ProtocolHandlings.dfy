/** Interleaving does not change what one coroutine does: each plays a path of `HandlerTask`. */
module ProtocolHandlings {
  import opened Common
  import opened HandlerTask
  import opened Protocol

  /** What the coroutine of `d` has been answered, in order. */
  function EventsOf(actions: seq<Action>, d: Delivery): seq<Event> {
    if actions == [] then []
    else
      var last := actions[|actions| - 1];
      EventsOf(actions[..|actions| - 1], d) + (if last.Await? && last.task == d then [last.event] else [])
  }

  /** How a delivery begins: as a new entry, as a reclaimed one, or as a reclaimed one that was trimmed. */
  predicate Begins(pc: Pc) {
    pc.Parse? || pc.Count? || pc.AckTrimmed?
  }

  ghost predicate IsPath(limits: Limits, trace: seq<Event>, pc: Pc) {
    exists start :: Begins(start) && Follow(limits, start, trace) == Some(pc)
  }

  ghost predicate AllPaths(limits: Limits, actions: seq<Action>, w: World) {
    && (forall d :: d in w.tasks ==> IsPath(limits, EventsOf(actions, d), w.tasks[d].pc))
    && (forall d :: !Happened(w, d) ==> EventsOf(actions, d) == [])
  }

  lemma PathGoesOn(limits: Limits, trace: seq<Event>, pc: Pc, event: Event)
    requires IsPath(limits, trace, pc) && Next(limits, pc, event).Some?
    ensures IsPath(limits, trace + [event], Next(limits, pc, event).value)
  {
    var start :| Begins(start) && Follow(limits, start, trace) == Some(pc);
    assert (trace + [event])[..|trace|] == trace;
    assert Follow(limits, start, trace + [event]) == Next(limits, pc, event);
  }

  lemma PathBegins(limits: Limits, pc: Pc)
    requires Begins(pc)
    ensures IsPath(limits, [], pc)
  {
    assert Follow(limits, pc, []) == Some(pc);
  }

  lemma EventsMore(actions: seq<Action>, action: Action, d: Delivery)
    ensures EventsOf(actions + [action], d) ==
            if action.Await? && action.task == d then EventsOf(actions, d) + [action.event] else EventsOf(actions, d)
  {
    assert (actions + [action])[..|actions|] == actions;
  }

  lemma AllPathsByAwait(limits: Limits, actions: seq<Action>, w: World, d: Delivery, event: Event, after: World)
    requires AllPaths(limits, actions, w) && Numbered(w) && Awaited(limits, w, d, event, after)
    ensures AllPaths(limits, actions + [Await(d, event)], after)
    ensures IsPath(limits, EventsOf(actions + [Await(d, event)], d), Next(limits, w.tasks[d].pc, event).value)
  {
    var longer := actions + [Await(d, event)];
    EventsMore(actions, Await(d, event), d);
    PathGoesOn(limits, EventsOf(actions, d), w.tasks[d].pc, event);
    forall e | e in after.tasks
      ensures IsPath(limits, EventsOf(longer, e), after.tasks[e].pc)
    {
      if e != d {
        EventsMore(actions, Await(d, event), e);
        assert after.tasks[e] == w.tasks[e];
      }
    }
    NothingBeforeDelivery(limits, actions, w, d, event, after);
  }

  lemma NothingBeforeDelivery(limits: Limits, actions: seq<Action>, w: World, d: Delivery, event: Event, after: World)
    requires AllPaths(limits, actions, w) && Numbered(w) && d in w.tasks && after.delivered == w.delivered
    ensures forall e :: !Happened(after, e) ==> EventsOf(actions + [Await(d, event)], e) == []
  {
    forall e | !Happened(after, e)
      ensures EventsOf(actions + [Await(d, event)], e) == []
    {
      EventsMore(actions, Await(d, event), e);
      assert Happened(w, d) && !Happened(w, e);
    }
  }

  /** The coroutines that an action other than an await begins are those of deliveries that are new. */
  lemma NewTasks(limits: Limits, w: World, action: Action, d: Delivery)
    requires Numbered(w) && Ordered(w)
    requires Step(limits, w, action).Some? && !action.Await?
    requires d in Step(limits, w, action).value.tasks
    requires d !in w.tasks || Step(limits, w, action).value.tasks[d] != w.tasks[d]
    ensures !Happened(w, d) && Begins(Step(limits, w, action).value.tasks[d].pc)
  {
  }

  lemma HappenedStays(limits: Limits, w: World, action: Action, d: Delivery)
    requires Numbered(w) && Ordered(w)
    requires Step(limits, w, action).Some? && !action.Await?
    requires Happened(w, d)
    ensures Happened(Step(limits, w, action).value, d)
  {
  }

  lemma AllPathsByOther(limits: Limits, actions: seq<Action>, w: World, action: Action)
    requires AllPaths(limits, actions, w) && Numbered(w) && Ordered(w)
    requires Step(limits, w, action).Some? && !action.Await?
    ensures AllPaths(limits, actions + [action], Step(limits, w, action).value)
  {
    var after := Step(limits, w, action).value;
    forall d | d in after.tasks
      ensures IsPath(limits, EventsOf(actions + [action], d), after.tasks[d].pc)
    {
      EventsMore(actions, action, d);
      if d !in w.tasks || after.tasks[d] != w.tasks[d] {
        NewTasks(limits, w, action, d);
        PathBegins(limits, after.tasks[d].pc);
      }
    }
    forall d | !Happened(after, d)
      ensures EventsOf(actions + [action], d) == []
    {
      EventsMore(actions, action, d);
      if Happened(w, d) {
        HappenedStays(limits, w, action, d);
      }
    }
  }

  lemma {:induction false} AllPathsByRun(limits: Limits, actions: seq<Action>)
    requires Run(limits, actions).Some?
    ensures AllPaths(limits, actions, Run(limits, actions).value)
  {
    if actions == [] {
    } else {
      var before := actions[..|actions| - 1];
      var last := actions[|actions| - 1];
      assert before + [last] == actions;
      AllPathsByRun(limits, before);
      NumberedByRun(limits, before);
      OrderedByRun(limits, before);
      var w := Run(limits, before).value;
      if last.Await? {
        ResumeIsAwaited(limits, w, last.task, last.event);
        AllPathsByAwait(limits, before, w, last.task, last.event, Run(limits, actions).value);
      } else {
        AllPathsByOther(limits, before, w, last);
      }
    }
  }

  /**
   In every interleaving, a handling that has come to its end has exactly one outcome, unless one of its
   own XACKs failed: processed and ACKed, dead-lettered and ACKed, or left pending. The one other way to
   end is the ACK of an entry that came back trimmed.
   */
  lemma OneOutcomeInEveryRun(limits: Limits, before: seq<Action>, d: Delivery, event: Event)
    requires Run(limits, before).Some? && Step(limits, Run(limits, before).value, Await(d, event)).Some?
    requires d !in Step(limits, Run(limits, before).value, Await(d, event)).value.tasks
    ensures var trace := EventsOf(before + [Await(d, event)], d);
            var t := TallyOf(trace);
            || (ProcessedAndAcked(t) || DeadLetteredAndAcked(t) || LeftPending(t) <==> t.ackFailed == 0)
            || (|trace| == 1 && trace[0].Acked?)
  {
    var w := Run(limits, before).value;
    AllPathsByRun(limits, before);
    NumberedByRun(limits, before);
    ResumeIsAwaited(limits, w, d, event);
    AllPathsByAwait(limits, before, w, d, event, Step(limits, w, Await(d, event)).value);
    var trace := EventsOf(before + [Await(d, event)], d);
    assert Next(limits, w.tasks[d].pc, event) == Some(End);
    var start :| Begins(start) && Follow(limits, start, trace) == Some(End);
    if start.AckTrimmed? {
      AckTrimmedTrace(limits, trace);
    } else {
      OneOutcome(limits, start, trace);
    }
  }

  lemma {:induction false} AckTrimmedTrace(limits: Limits, trace: seq<Event>)
    requires Follow(limits, AckTrimmed, trace).Some?
    ensures trace == [] || (|trace| == 1 && trace[0].Acked? && Follow(limits, AckTrimmed, trace) == Some(End))
  {
    if trace == [] {
    } else {
      AckTrimmedTrace(limits, trace[..|trace| - 1]);
    }
  }

  /** This action hands out delivery `d`: the first one of the entry, or one more than it had. */
  predicate HandsOut(w: World, action: Action, d: Delivery) {
    || (action.Read? && d == Delivery(action.id, 1))
    || (action.Claim? && action.id in w.pending && d == Delivery(action.id, w.pending[action.id] + 1))
  }

  /** Where its handling begins. */
  function BeginsAt(w: World, action: Action): Pc
    requires action.Read? || action.Claim?
  {
    if action.Read? then Parse else if action.id in w.stream then Count else AckTrimmed
  }

  /** The coroutine of `d` has gone from `start` through these answers. */
  ghost predicate HasGone(limits: Limits, start: Pc, trace: seq<Event>, d: Delivery, w: World) {
    && Happened(w, d)
    && Follow(limits, start, trace).Some?
    && (d in w.tasks ==> Follow(limits, start, trace) == Some(w.tasks[d].pc))
  }

  lemma BeginsThere(limits: Limits, before: seq<Action>, action: Action, d: Delivery)
    requires Run(limits, before).Some? && Run(limits, before + [action]).Some?
    requires HandsOut(Run(limits, before).value, action, d)
    ensures HasGone(limits, BeginsAt(Run(limits, before).value, action), [], d,
                    Run(limits, before + [action]).value)
  {
    assert (before + [action])[..|before|] == before;
    assert Run(limits, before + [action]) == Step(limits, Run(limits, before).value, action);
  }

  lemma OneMore(limits: Limits, base: seq<Action>, more: seq<Action>)
    requires more != [] && Run(limits, base + more).Some?
    ensures var fewer := more[..|more| - 1];
            && Run(limits, base + fewer).Some?
            && Run(limits, base + more) == Step(limits, Run(limits, base + fewer).value, more[|more| - 1])
  {
    assert (base + more)[..|base + more| - 1] == base + more[..|more| - 1];
  }

  lemma {:induction false} RanBefore(limits: Limits, base: seq<Action>, more: seq<Action>)
    requires Run(limits, base + more).Some?
    ensures Run(limits, base).Some?
  {
    if more == [] {
      assert base + more == base;
    } else {
      OneMore(limits, base, more);
      RanBefore(limits, base, more[..|more| - 1]);
    }
  }

  lemma {:induction false} HasGoneByRun(limits: Limits, base: seq<Action>, start: Pc, d: Delivery, more: seq<Action>)
    requires Run(limits, base).Some? && Run(limits, base + more).Some?
    requires HasGone(limits, start, [], d, Run(limits, base).value)
    ensures HasGone(limits, start, EventsOf(more, d), d, Run(limits, base + more).value)
    decreases |more|
  {
    if more == [] {
      assert base + more == base;
    } else {
      var fewer, last := more[..|more| - 1], more[|more| - 1];
      OneMore(limits, base, more);
      HasGoneByRun(limits, base, start, d, fewer);
      GoesOn(limits, start, fewer, d, base + fewer, last);
      assert fewer + [last] == more;
    }
  }

  /**
   How a handling goes in every interleaving, from the action that hands the entry out: a new entry has its envelope
   read, a reclaimed one its count looked up first, and one that was trimmed by then is ACKed and nothing else.
   */
  lemma HandedOutAs(limits: Limits, before: seq<Action>, action: Action, d: Delivery, more: seq<Action>)
    requires Run(limits, before).Some? && Run(limits, before + [action] + more).Some?
    requires HandsOut(Run(limits, before).value, action, d)
    ensures var trace := EventsOf(more, d);
            && (action.Read? && trace != [] ==> trace[0].Envelope?)
            && (action.Claim? && action.id in Run(limits, before).value.stream && trace != [] ==> trace[0].Counted?)
            && (action.Claim? && action.id !in Run(limits, before).value.stream ==>
                  trace == [] || exists reply :: trace == [Acked(reply)])
  {
    var trace, start := EventsOf(more, d), BeginsAt(Run(limits, before).value, action);
    RanBefore(limits, before + [action], more);
    BeginsThere(limits, before, action, d);
    HasGoneByRun(limits, before + [action], start, d, more);
    if trace != [] {
      StepAt(limits, start, trace, 0);
      assert trace[..0] == [];
      assert Next(limits, start, trace[0]).Some?;
    }
    if start.AckTrimmed? {
      AckTrimmedTrace(limits, trace);
      if trace != [] {
        assert trace == [Acked(trace[0].reply)];
      }
    }
  }

  lemma GoesOn(limits: Limits, start: Pc, actions: seq<Action>, d: Delivery, ran: seq<Action>, action: Action)
    requires Run(limits, ran).Some? && Step(limits, Run(limits, ran).value, action).Some?
    requires HasGone(limits, start, EventsOf(actions, d), d, Run(limits, ran).value)
    ensures var after := Step(limits, Run(limits, ran).value, action).value;
            HasGone(limits, start, EventsOf(actions + [action], d), d, after)
  {
    var w := Run(limits, ran).value;
    NumberedByRun(limits, ran);
    OrderedByRun(limits, ran);
    EventsMore(actions, action, d);
    if action.Await? {
      ResumeIsAwaited(limits, w, action.task, action.event);
      var trace := EventsOf(actions, d);
      assert (trace + [action.event])[..|trace|] == trace;
    } else {
      HappenedStays(limits, w, action, d);
      if d in Step(limits, w, action).value.tasks
         && (d !in w.tasks || Step(limits, w, action).value.tasks[d] != w.tasks[d])
      {
        NewTasks(limits, w, action, d);
        assert false;
      }
    }
  }
}
