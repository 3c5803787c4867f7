/**
 Where a group begins, over whole runs, told by the actions alone: the first creation of the group decides, by
 the `group_start_id` it is given. From "0" no entry is passed over; from `$` exactly those that were there already.
 */
module ProtocolStart {
  import opened Common
  import opened HandlerTask
  import opened Protocol

  /** How many entries have been added: they are numbered from 1 to here. */
  function Produced(actions: seq<Action>): nat {
    if actions == [] then 0
    else Produced(actions[..|actions| - 1]) + (if actions[|actions| - 1].Produce? then 1 else 0)
  }

  /** The creation of the group that took effect. */
  predicate IsFirstCreation(actions: seq<Action>, i: nat) {
    && i < |actions| && actions[i].CreateGroup?
    && forall j :: 0 <= j < i ==> !actions[j].CreateGroup?
  }

  /** The last entry that a group created by action `i` passes over. */
  function StartAt(actions: seq<Action>, i: nat): nat
    requires i < |actions| && actions[i].CreateGroup?
  {
    match actions[i].at
    case Some(id) => id
    case None => Produced(actions[..i])
  }

  /** XREADGROUP has delivered the entry. */
  predicate WasRead(actions: seq<Action>, id: nat) {
    exists i :: 0 <= i < |actions| && actions[i].Read? && actions[i].id == id
  }

  predicate WasTrimmed(actions: seq<Action>, id: nat) {
    exists i :: 0 <= i < |actions| && actions[i] == Trim(id)
  }

  /** The parts of the state that the actions tell. */
  ghost predicate Told(actions: seq<Action>, w: World) {
    && w.last == Produced(actions)
    && (forall id :: id in w.delivered <==> WasRead(actions, id))
    && (forall id :: 1 <= id <= w.last && id !in w.stream ==> WasTrimmed(actions, id))
    && (w.groupStart.Some? ==> exists i :: IsFirstCreation(actions, i))
    && (forall i :: IsFirstCreation(actions, i) ==> w.groupStart == Some(StartAt(actions, i)))
  }

  lemma ToldMore(before: seq<Action>, action: Action)
    ensures Produced(before + [action]) == Produced(before) + (if action.Produce? then 1 else 0)
    ensures forall id :: WasRead(before + [action], id) <==> WasRead(before, id) || (action.Read? && action.id == id)
    ensures forall id :: WasTrimmed(before + [action], id) <==> WasTrimmed(before, id) || action == Trim(id)
  {
    var actions := before + [action];
    assert actions[..|actions| - 1] == before;
    forall id
      ensures WasRead(before, id) || (action.Read? && action.id == id) ==> WasRead(actions, id)
      ensures WasTrimmed(before, id) || action == Trim(id) ==> WasTrimmed(actions, id)
    {
      assert actions[|before|] == action;
      assert forall i :: 0 <= i < |before| ==> actions[i] == before[i];
    }
  }

  lemma CreationMore(before: seq<Action>, action: Action, i: nat)
    ensures IsFirstCreation(before + [action], i) <==>
            || IsFirstCreation(before, i)
            || (i == |before| && action.CreateGroup? && forall j :: 0 <= j < i ==> !before[j].CreateGroup?)
    ensures IsFirstCreation(before + [action], i) ==>
              StartAt(before + [action], i) ==
              if i < |before| then StartAt(before, i) else if action.at.Some? then action.at.value else Produced(before)
  {
    var actions := before + [action];
    if IsFirstCreation(actions, i) {
      assert actions[..i] == before[..i];
      assert before[..|before|] == before;
    }
  }

  /** A run without a first creation has no creation at all. */
  lemma {:induction false} SomeFirstCreation(actions: seq<Action>, n: nat)
    requires n < |actions| && actions[n].CreateGroup?
    ensures exists i :: IsFirstCreation(actions, i)
  {
    if j :| 0 <= j < n && actions[j].CreateGroup? {
      SomeFirstCreation(actions, j);
    } else {
      assert IsFirstCreation(actions, n);
    }
  }

  lemma ToldByStep(limits: Limits, before: seq<Action>, w: World, action: Action)
    requires Told(before, w) && Kept(w) && Ordered(w) && Step(limits, w, action).Some?
    ensures Told(before + [action], Step(limits, w, action).value)
  {
    var after := Step(limits, w, action).value;
    ToldMore(before, action);
    if action.Await? {
      ResumeIsAwaited(limits, w, action.task, action.event);
    }
    StartByStep(limits, before, w, action);
    forall id | 1 <= id <= after.last && id !in after.stream
      ensures WasTrimmed(before + [action], id)
    {
    }
  }

  lemma StartByStep(limits: Limits, before: seq<Action>, w: World, action: Action)
    requires Told(before, w) && Step(limits, w, action).Some?
    ensures var after := Step(limits, w, action).value;
            && (after.groupStart.Some? ==> exists i :: IsFirstCreation(before + [action], i))
            && (forall i :: IsFirstCreation(before + [action], i) ==>
                  after.groupStart == Some(StartAt(before + [action], i)))
  {
    var after := Step(limits, w, action).value;
    if action.Await? {
      ResumeIsAwaited(limits, w, action.task, action.event);
    }
    assert action.CreateGroup? || after.groupStart == w.groupStart;
    forall i: nat
      ensures IsFirstCreation(before + [action], i) ==> after.groupStart == Some(StartAt(before + [action], i))
      ensures IsFirstCreation(before, i) ==> IsFirstCreation(before + [action], i)
    {
      CreationMore(before, action, i);
    }
    if action.CreateGroup? {
      SomeFirstCreation(before + [action], |before|);
    }
  }

  lemma {:induction false} ToldByRun(limits: Limits, actions: seq<Action>)
    requires Run(limits, actions).Some?
    ensures Told(actions, Run(limits, actions).value)
  {
    if actions == [] {
    } else {
      var before := actions[..|actions| - 1];
      ToldByRun(limits, before);
      KeptByRun(limits, before);
      OrderedByRun(limits, before);
      ToldByStep(limits, before, Run(limits, before).value, actions[|actions| - 1]);
      assert before + [actions[|actions| - 1]] == actions;
    }
  }

  /**
   A group exists once it has been created, and what it passes over is exactly what the first creation says:
   no entry up to its start is ever read, and each later one has been read, has been trimmed, or is still ahead of
   the group's cursor.
   */
  lemma PassesOverExactly(limits: Limits, actions: seq<Action>, i: nat, id: nat)
    requires Run(limits, actions).Some? && IsFirstCreation(actions, i) && 1 <= id <= Produced(actions)
    ensures var w := Run(limits, actions).value;
            && w.groupStart == Some(StartAt(actions, i))
            && (id <= StartAt(actions, i) ==> !WasRead(actions, id))
            && (id > StartAt(actions, i) ==>
                  WasRead(actions, id) || WasTrimmed(actions, id) || (id in w.stream && w.cursor < id))
  {
    ToldByRun(limits, actions);
    OrderedByRun(limits, actions);
  }

  /** The default: a group that is only ever created from "0" passes over nothing, whatever was there before it. */
  lemma DefaultPassesOverNothing(limits: Limits, actions: seq<Action>, id: nat)
    requires Run(limits, actions).Some? && 1 <= id <= Produced(actions)
    requires forall i :: 0 <= i < |actions| && actions[i].CreateGroup? ==> actions[i].at == Some(0)
    ensures var w := Run(limits, actions).value;
            || (forall i :: 0 <= i < |actions| ==> !actions[i].CreateGroup?)
            || WasRead(actions, id) || WasTrimmed(actions, id) || (id in w.stream && w.cursor < id)
  {
    if n :| 0 <= n < |actions| && actions[n].CreateGroup? {
      SomeFirstCreation(actions, n);
      var i :| IsFirstCreation(actions, i);
      PassesOverExactly(limits, actions, i, id);
    }
  }

  /** With `$`, the entries that were added before the group, and no others, are never read. */
  lemma DollarPassesOverTheOld(limits: Limits, actions: seq<Action>, i: nat, id: nat)
    requires Run(limits, actions).Some? && IsFirstCreation(actions, i) && actions[i].at == None
    requires 1 <= id <= Produced(actions)
    ensures var w := Run(limits, actions).value;
            if id <= Produced(actions[..i]) then !WasRead(actions, id)
            else WasRead(actions, id) || WasTrimmed(actions, id) || (id in w.stream && w.cursor < id)
  {
    PassesOverExactly(limits, actions, i, id);
  }

  /**
   What a live consumer can read next: exactly the first entry after the group's start that is in the stream and
   was never read.
   */
  lemma ReadsTheFirstUnread(limits: Limits, actions: seq<Action>, consumer: nat, id: nat)
    requires Run(limits, actions).Some?
    ensures var w := Run(limits, actions).value;
            Step(limits, w, Read(consumer, id)).Some? <==>
              && w.groupStart.Some? && consumer in w.free
              && id in w.stream && w.groupStart.value < id && !WasRead(actions, id)
              && forall other :: other in w.stream && w.groupStart.value < other < id ==> WasRead(actions, other)
  {
    var w := Run(limits, actions).value;
    ToldByRun(limits, actions);
    OrderedByRun(limits, actions);
    if w.groupStart.Some? && id in w.stream && w.groupStart.value < id && !WasRead(actions, id)
       && forall other :: other in w.stream && w.groupStart.value < other < id ==> WasRead(actions, other)
    {
      assert w.cursor < id;
      forall other | other in w.stream && w.cursor < other
        ensures id <= other
      {
        assert !WasRead(actions, other);
      }
      assert IsNext(w, id);
    }
  }
}
