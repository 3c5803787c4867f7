/**
 One handling of one stream entry: `_handle_entry`, with the lookup of the delivery count and the two
 shorter paths of a reclaimed entry in front of it. The control state of the coroutine is a program
 counter; every `await` is an event that carries what the environment answered.
 */
module HandlerTask {
  import opened Common

  /** What Redis answers to a write. The connection may break after Redis has applied the command. */
  datatype Reply = Done | Failed(applied: bool, error: string)

  predicate Applied(reply: Reply) {
    reply.Done? || reply.applied
  }

  /** What one call of `process_message` does. */
  datatype Attempt = Returns | Raises(error: string) | RaisesNonRetryable(message: string)

  /** The `error` field of a DLQ record. */
  datatype Cause =
    | InvalidMessage
    | LastError(error: string)
    | NonRetryable(message: string)
    | DeliveryLimit(deliveries: nat)
    | NoError

  datatype Pc =
    | Count                       // a reclaimed entry, before `_delivery_count`
    | Parse                       // before the envelope is read
    | Wait(attempt: nat)          // before `async with self._semaphore`
    | Process(attempt: nat)       // in the slot, inside `process_message`
    | AckProcessed(attempt: nat)  // in the slot, inside `xack`
    | Sleep(attempt: nat)         // between two attempts
    | WriteDlq(cause: Cause)
    | AckDlq
    | AckTrimmed                  // a reclaimed entry that came back with no fields
    | End

  datatype Event =
    | Counted(deliveries: Option<nat>)
    | Envelope(valid: bool)
    | Acquired
    | Processed(outcome: Attempt)
    | Acked(reply: Reply)
    | Slept
    | DeadLettered(reply: Reply)

  datatype Limits = Limits(maxRetries: nat, maxDeliveries: nat)

  /** The semaphore is held exactly inside the `async with` block. */
  predicate Holds(pc: Pc) {
    pc.Process? || pc.AckProcessed?
  }

  /** The end of an attempt that raised something retryable. */
  function AfterFailure(limits: Limits, attempt: nat, error: string): Pc {
    if attempt < limits.maxRetries then Sleep(attempt) else WriteDlq(LastError(error))
  }

  /** One step of the coroutine; `None` when it is not waiting for this event. */
  function Next(limits: Limits, pc: Pc, event: Event): Option<Pc> {
    match (pc, event)
    case (Count, Counted(deliveries)) =>
      if deliveries.Some? && deliveries.value > limits.maxDeliveries
      then Some(WriteDlq(DeliveryLimit(deliveries.value)))
      else Some(Parse)
    case (Parse, Envelope(valid)) =>
      Some(if !valid then WriteDlq(InvalidMessage)
           else if limits.maxRetries == 0 then WriteDlq(NoError)
           else Wait(1))
    case (Wait(attempt), Acquired) => Some(Process(attempt))
    case (Process(attempt), Processed(outcome)) =>
      (match outcome
       case Returns => Some(AckProcessed(attempt))
       case Raises(error) => Some(AfterFailure(limits, attempt, error))
       case RaisesNonRetryable(message) => Some(WriteDlq(NonRetryable(message))))
    case (AckProcessed(attempt), Acked(reply)) =>
      // the XACK is inside the `try` of the attempt: when it fails the attempt counts as failed
      Some(if reply.Done? then End else AfterFailure(limits, attempt, reply.error))
    case (Sleep(attempt), Slept) => Some(Wait(attempt + 1))
    case (WriteDlq(_), DeadLettered(reply)) => Some(if reply.Done? then AckDlq else End)
    case (AckDlq, Acked(_)) => Some(End)
    case (AckTrimmed, Acked(_)) => Some(End)
    case _ => None
  }

  /** Where a sequence of events leads from `start`. */
  function Follow(limits: Limits, start: Pc, trace: seq<Event>): Option<Pc> {
    if trace == [] then Some(start)
    else
      var before := Follow(limits, start, trace[..|trace| - 1]);
      if before.None? then None else Next(limits, before.value, trace[|trace| - 1])
  }

  // ---------------------------------------------------------------- the outcome of one handling

  datatype Tally = Tally(
    attempts: nat,     // calls of process_message
    returned: nat,      // ... that returned
    dlqTried: nat,     // XADDs to the DLQ
    dlqWritten: nat,   // ... that Redis confirmed
    acked: nat,        // XACKs that Redis confirmed
    ackFailed: nat)    // XACKs that raised

  function Add(t: Tally, event: Event): Tally {
    match event
    case Processed(outcome) =>
      t.(attempts := t.attempts + 1, returned := t.returned + if outcome.Returns? then 1 else 0)
    case DeadLettered(reply) =>
      t.(dlqTried := t.dlqTried + 1, dlqWritten := t.dlqWritten + if reply.Done? then 1 else 0)
    case Acked(Done) => t.(acked := t.acked + 1)
    case Acked(Failed(_, _)) => t.(ackFailed := t.ackFailed + 1)
    case _ => t
  }

  function TallyOf(trace: seq<Event>): Tally {
    if trace == [] then Tally(0, 0, 0, 0, 0, 0)
    else Add(TallyOf(trace[..|trace| - 1]), trace[|trace| - 1])
  }

  predicate ProcessedAndAcked(t: Tally) {
    t.returned == 1 && t.dlqTried == 0 && t.acked == 1
  }

  predicate DeadLetteredAndAcked(t: Tally) {
    t.returned == 0 && t.dlqTried == 1 && t.dlqWritten == 1 && t.acked == 1
  }

  predicate LeftPending(t: Tally) {
    t.returned == 0 && t.dlqTried == 1 && t.dlqWritten == 0 && t.acked == 0
  }

  /** What is known half-way through a handling. */
  ghost predicate SoFar(limits: Limits, pc: Pc, t: Tally) {
    && t.attempts <= limits.maxRetries
    && match pc
       case Count => t == Tally(0, 0, 0, 0, 0, 0)
       case Parse => t == Tally(0, 0, 0, 0, 0, 0)
       case Wait(k) =>
         1 <= k <= limits.maxRetries && t.attempts == k - 1 && t.dlqTried == t.dlqWritten == t.acked == 0
         && t.returned == t.ackFailed
       case Process(k) =>
         1 <= k <= limits.maxRetries && t.attempts == k - 1 && t.dlqTried == t.dlqWritten == t.acked == 0
         && t.returned == t.ackFailed
       case AckProcessed(k) =>
         1 <= k <= limits.maxRetries && t.attempts == k && t.dlqTried == t.dlqWritten == t.acked == 0
         && t.returned == t.ackFailed + 1
       case Sleep(k) =>
         1 <= k < limits.maxRetries && t.attempts == k && t.dlqTried == t.dlqWritten == t.acked == 0
         && t.returned == t.ackFailed
       case WriteDlq(_) => t.dlqTried == t.dlqWritten == t.acked == 0 && t.returned == t.ackFailed
       case AckDlq => t.dlqTried == t.dlqWritten == 1 && t.acked == 0 && t.returned == t.ackFailed
       case End =>
         || (t.dlqTried == t.dlqWritten == 0 && t.acked == 1 && t.returned == t.ackFailed + 1)
         || (t.dlqTried == 1 && t.dlqWritten == 0 && t.acked == 0 && t.returned == t.ackFailed)
         || (t.dlqTried == t.dlqWritten == 1 && t.acked == 1 && t.returned == t.ackFailed)
         || (t.dlqTried == t.dlqWritten == 1 && t.acked == 0 && t.returned + 1 == t.ackFailed)
       case _ => false
  }

  lemma {:induction false} HandlingSoFar(limits: Limits, start: Pc, trace: seq<Event>)
    requires start.Parse? || start.Count?
    requires Follow(limits, start, trace).Some?
    ensures SoFar(limits, Follow(limits, start, trace).value, TallyOf(trace))
  {
    if trace == [] {
    } else {
      HandlingSoFar(limits, start, trace[..|trace| - 1]);
    }
  }

  /**
   A complete handling, of a new entry or of a reclaimed one, has exactly one of the three outcomes if
   and only if none of its XACKs failed, and never makes more than `max_retries` attempts. (For
   `max_retries == 0` the entry is dead-lettered without an attempt.)
   */
  lemma OneOutcome(limits: Limits, start: Pc, trace: seq<Event>)
    requires start.Parse? || start.Count?
    requires Follow(limits, start, trace) == Some(End)
    ensures var t := TallyOf(trace);
            && t.attempts <= limits.maxRetries
            && (ProcessedAndAcked(t) || DeadLetteredAndAcked(t) || LeftPending(t) <==> t.ackFailed == 0)
            && !(ProcessedAndAcked(t) && DeadLetteredAndAcked(t))
            && !(DeadLetteredAndAcked(t) && LeftPending(t))
            && !(ProcessedAndAcked(t) && LeftPending(t))
  {
    HandlingSoFar(limits, start, trace);
  }

  lemma FollowOn(limits: Limits, trace: seq<Event>, pc: Pc, event: Event, next: Pc) returns (more: seq<Event>)
    requires Follow(limits, Parse, trace) == Some(pc) && Next(limits, pc, event) == Some(next)
    ensures Follow(limits, Parse, more) == Some(next) && TallyOf(more) == Add(TallyOf(trace), event)
  {
    more := trace + [event];
    assert more[..|trace|] == trace;
  }

  /** The other case, whatever the limits: an entry is processed, its XACKs fail, and it is dead-lettered too. */
  lemma FailedAckHasNoOutcome(limits: Limits, error: string) returns (trace: seq<Event>)
    requires limits.maxRetries >= 1
    ensures Follow(limits, Parse, trace) == Some(End)
    ensures var t := TallyOf(trace);
            && t.returned == limits.maxRetries && t.dlqWritten == 1
            && !ProcessedAndAcked(t) && !DeadLetteredAndAcked(t) && !LeftPending(t)
  {
    trace := FollowOn(limits, [], Parse, Envelope(true), Wait(1));
    trace := AcksFail(limits, trace, 1, error);
    trace := FollowOn(limits, trace, WriteDlq(LastError(error)), DeadLettered(Done), AckDlq);
    trace := FollowOn(limits, trace, AckDlq, Acked(Done), End);
  }

  /** Every attempt from the k-th on returns, and its XACK fails. */
  lemma {:induction false} AcksFail(limits: Limits, trace: seq<Event>, k: nat, error: string) returns (more: seq<Event>)
    requires 1 <= k <= limits.maxRetries && Follow(limits, Parse, trace) == Some(Wait(k))
    requires TallyOf(trace).dlqWritten == TallyOf(trace).dlqTried == 0 && TallyOf(trace).returned == k - 1
    ensures Follow(limits, Parse, more) == Some(WriteDlq(LastError(error)))
    ensures TallyOf(more).dlqWritten == TallyOf(more).dlqTried == 0 && TallyOf(more).returned == limits.maxRetries
    decreases limits.maxRetries - k
  {
    more := FollowOn(limits, trace, Wait(k), Acquired, Process(k));
    more := FollowOn(limits, more, Process(k), Processed(Returns), AckProcessed(k));
    more := FollowOn(limits, more, AckProcessed(k), Acked(Failed(false, error)), AfterFailure(limits, k, error));
    if k == limits.maxRetries {
    } else {
      more := FollowOn(limits, more, Sleep(k), Slept, Wait(k + 1));
      more := AcksFail(limits, more, k + 1, error);
    }
  }

  /** The order inside a handling: an XACK is the last event, right after the return or the confirmed DLQ write. */
  lemma {:induction false} NeverAckFirst(limits: Limits, start: Pc, trace: seq<Event>, i: nat)
    requires (start.Parse? || start.Count?) && Follow(limits, start, trace).Some?
    requires i < |trace| && trace[i].Acked?
    ensures i > 0
    ensures trace[i - 1] == Processed(Returns) || trace[i - 1] == DeadLettered(Done)
    ensures trace[i].reply.Done? ==> |trace| == i + 1
  {
    StepAt(limits, start, trace, i);
    assert trace[..0] == [];
    assert i > 0;
    StepAt(limits, start, trace, i - 1);
    AckNeeds(limits, Follow(limits, start, trace[..i - 1]).value, trace[i - 1], trace[i].reply);
    if trace[i].reply.Done? {
      AckEnds(limits, start, trace, i);
    }
  }

  /** Only two events lead to where an XACK is awaited, and a new entry never gets to the XACK of a trimmed one. */
  lemma AckNeeds(limits: Limits, pc: Pc, event: Event, reply: Reply)
    requires Next(limits, pc, event).Some? && Next(limits, Next(limits, pc, event).value, Acked(reply)).Some?
    ensures event == Processed(Returns) || event == DeadLettered(Done)
  {
  }

  lemma AckEnds(limits: Limits, start: Pc, trace: seq<Event>, i: nat)
    requires Follow(limits, start, trace).Some?
    requires i < |trace| && trace[i] == Acked(Done)
    ensures |trace| == i + 1
  {
    StepAt(limits, start, trace, i);
    if i + 1 < |trace| {
      StepAt(limits, start, trace, i + 1);
    }
  }

  lemma StepAt(limits: Limits, start: Pc, trace: seq<Event>, i: nat)
    requires i < |trace| && Follow(limits, start, trace).Some?
    ensures Follow(limits, start, trace[..i]).Some? && Follow(limits, start, trace[..i + 1]).Some?
    ensures Follow(limits, start, trace[..i + 1]) ==
            Next(limits, Follow(limits, start, trace[..i]).value, trace[i])
  {
    FollowPrefix(limits, start, trace, i + 1);
    assert trace[..i + 1][..i] == trace[..i];
  }

  /** After a NonRetryableError no attempt follows. */
  lemma NoAttemptAfterNonRetryable(limits: Limits, start: Pc, trace: seq<Event>, i: nat, j: nat)
    requires Follow(limits, start, trace).Some?
    requires i < j < |trace|
    requires trace[i].Processed? && trace[i].outcome.RaisesNonRetryable?
    ensures !trace[j].Acquired? && !trace[j].Processed? && !trace[j].Slept?
  {
    StepAt(limits, start, trace, i);
    StepAt(limits, start, trace, j);
    assert trace[..j][..i + 1] == trace[..i + 1];
    NoWayBack(limits, start, trace[..j], i + 1);
  }

  predicate Leaving(pc: Pc) {
    pc.WriteDlq? || pc.AckDlq? || pc.End?
  }

  lemma {:induction false} NoWayBack(limits: Limits, start: Pc, trace: seq<Event>, i: nat)
    requires i <= |trace| && Follow(limits, start, trace).Some?
    requires Follow(limits, start, trace[..i]).Some? && Leaving(Follow(limits, start, trace[..i]).value)
    ensures Leaving(Follow(limits, start, trace).value)
  {
    if i == |trace| {
      assert trace[..i] == trace;
    } else {
      var before := trace[..|trace| - 1];
      assert before[..i] == trace[..i];
      NoWayBack(limits, start, before, i);
      LeavingNext(limits, Follow(limits, start, before).value, trace[|trace| - 1]);
    }
  }

  lemma LeavingNext(limits: Limits, pc: Pc, event: Event)
    requires Leaving(pc) && Next(limits, pc, event).Some?
    ensures Leaving(Next(limits, pc, event).value)
  {
  }

  lemma {:induction false} FollowPrefix(limits: Limits, start: Pc, trace: seq<Event>, i: nat)
    requires i <= |trace| && Follow(limits, start, trace).Some?
    ensures Follow(limits, start, trace[..i]).Some?
  {
    if i == |trace| {
      assert trace[..i] == trace;
    } else {
      var shorter := trace[..|trace| - 1];
      FollowPrefix(limits, start, shorter, i);
      assert shorter[..i] == trace[..i];
    }
  }

  /** What the environment answered last gives this error to the DLQ record. */
  predicate IsCause(limits: Limits, event: Event, cause: Cause) {
    match event
    case Counted(Some(deliveries)) => cause == DeliveryLimit(deliveries) && deliveries > limits.maxDeliveries
    case Envelope(valid) => if valid then cause == NoError && limits.maxRetries == 0 else cause == InvalidMessage
    case Processed(Raises(error)) => cause == LastError(error)
    case Processed(RaisesNonRetryable(message)) => cause == NonRetryable(message)
    case Acked(Failed(_, error)) => cause == LastError(error)
    case _ => false
  }

  /**
   Why an entry goes to the DLQ: the record gives the error of what came right before it, and that is a retryable
   error only after all `max_retries` attempts.
   */
  lemma CauseIsLast(limits: Limits, start: Pc, trace: seq<Event>, cause: Cause)
    requires start.Parse? || start.Count?
    requires Follow(limits, start, trace) == Some(WriteDlq(cause))
    ensures trace != [] && IsCause(limits, trace[|trace| - 1], cause)
    ensures cause.LastError? ==> TallyOf(trace).attempts == limits.maxRetries
  {
    assert trace != [];
    HandlingSoFar(limits, start, trace[..|trace| - 1]);
  }

  // ---------------------------------------------------------------- the code of `_handle_entry`

  /** One complete set of answers of the environment to one handling. */
  datatype Answers = Answers(
    valid: bool,
    attempt: nat -> Attempt,
    ack: nat -> Reply,
    dlq: Reply,
    dlqAck: Reply)

  ghost predicate Agrees(answers: Answers, pc: Pc, event: Event) {
    match (pc, event)
    case (Parse, Envelope(valid)) => valid == answers.valid
    case (Process(attempt), Processed(outcome)) => outcome == answers.attempt(attempt)
    case (AckProcessed(attempt), Acked(reply)) => reply == answers.ack(attempt)
    case (WriteDlq(_), DeadLettered(reply)) => reply == answers.dlq
    case (AckDlq, Acked(reply)) => reply == answers.dlqAck
    case _ => true
  }

  /** `trace` is a path from `Parse` on which every event is the answer of the environment. */
  ghost predicate Plays(limits: Limits, answers: Answers, trace: seq<Event>) {
    trace == [] ||
    var before := trace[..|trace| - 1];
    && Plays(limits, answers, before)
    && Follow(limits, Parse, trace).Some?
    && Follow(limits, Parse, before).Some?
    && Agrees(answers, Follow(limits, Parse, before).value, trace[|trace| - 1])
  }

  /** An attempt that ends the loop: it raised a NonRetryableError, or returned and was ACKed. */
  predicate Decisive(answers: Answers, attempt: nat) {
    || answers.attempt(attempt).RaisesNonRetryable?
    || (answers.attempt(attempt).Returns? && answers.ack(attempt).Done?)
  }

  /** An attempt that fails with this error: `process_message` raised it, or the XACK did. */
  predicate FailsWith(answers: Answers, attempt: nat, error: string) {
    || answers.attempt(attempt) == Raises(error)
    || (answers.attempt(attempt).Returns? && answers.ack(attempt).Failed? && answers.ack(attempt).error == error)
  }

  /** Why no attempt succeeded, when `k` is the first decisive one. */
  predicate IsFailure(limits: Limits, answers: Answers, k: nat, cause: Cause) {
    if k <= limits.maxRetries then cause.NonRetryable? && answers.attempt(k) == RaisesNonRetryable(cause.message)
    else if limits.maxRetries == 0 then cause == NoError
    else cause.LastError? && FailsWith(answers, limits.maxRetries, cause.error)
  }

  /** The first decisive attempt in `from..maxRetries`, or `maxRetries + 1`. */
  function FirstDecisive(limits: Limits, answers: Answers, from: nat): (k: nat)
    requires from <= limits.maxRetries + 1
    ensures from <= k <= limits.maxRetries + 1
    ensures k <= limits.maxRetries ==> Decisive(answers, k)
    ensures forall j :: from <= j < k ==> !Decisive(answers, j)
    decreases limits.maxRetries + 1 - from
  {
    if from == limits.maxRetries + 1 || Decisive(answers, from) then from
    else FirstDecisive(limits, answers, from + 1)
  }

  /** A handling that has played `trace`, stands at `pc` and has made `attempts` attempts. */
  ghost predicate At(limits: Limits, answers: Answers, trace: seq<Event>, pc: Pc, attempts: nat, dlqTried: nat) {
    && Plays(limits, answers, trace)
    && Follow(limits, Parse, trace) == Some(pc)
    && TallyOf(trace).attempts == attempts
    && TallyOf(trace).dlqTried == dlqTried
  }

  lemma PlayOne(limits: Limits, answers: Answers, trace: seq<Event>, event: Event,
                pc: Pc, attempts: nat, dlqTried: nat, after: Pc)
    requires At(limits, answers, trace, pc, attempts, dlqTried)
    requires Next(limits, pc, event) == Some(after) && Agrees(answers, pc, event)
    ensures At(limits, answers, trace + [event], after,
               attempts + (if event.Processed? then 1 else 0), dlqTried + (if event.DeadLettered? then 1 else 0))
  {
    assert (trace + [event])[..|trace|] == trace;
  }

  /**
   `_handle_entry`, statement by statement. The awaits it makes are a complete path of the coroutine
   under the given answers; it calls `process_message` until the first decisive attempt and no further;
   it is dead-lettered exactly when the envelope is invalid or no attempt was processed and ACKed.
   */
  method HandleEntry(limits: Limits, answers: Answers) returns (trace: seq<Event>)
    ensures Follow(limits, Parse, trace) == Some(End)
    ensures Plays(limits, answers, trace)
    ensures !answers.valid ==> TallyOf(trace).attempts == 0 && TallyOf(trace).dlqTried == 1
    ensures answers.valid ==>
              var k := FirstDecisive(limits, answers, 1);
              && TallyOf(trace).attempts == (if k <= limits.maxRetries then k else limits.maxRetries)
              && (TallyOf(trace).dlqTried == 0 <==> k <= limits.maxRetries && answers.attempt(k).Returns?)
  {
    trace := ReadEnvelope(limits, answers);
    if !answers.valid {
      trace := SendToDlq(limits, answers, trace, InvalidMessage, 0);
      return;
    }
    var failure, attempts;
    trace, failure, attempts := TryAll(limits, answers, trace);
    if failure.Some? {
      trace := SendToDlq(limits, answers, trace, failure.value, attempts);
    }
  }

  method ReadEnvelope(limits: Limits, answers: Answers) returns (trace: seq<Event>)
    ensures At(limits, answers, trace,
               if !answers.valid then WriteDlq(InvalidMessage)
               else if 1 <= limits.maxRetries then Wait(1) else WriteDlq(NoError), 0, 0)
  {
    assert At(limits, answers, [], Parse, 0, 0);
    ghost var entered := Next(limits, Parse, Envelope(answers.valid)).value;
    PlayOne(limits, answers, [], Envelope(answers.valid), Parse, 0, 0, entered);
    trace := [] + [Envelope(answers.valid)];
  }

  /** The retry loop: `failure` is why the entry goes to the DLQ, if it does. */
  method TryAll(limits: Limits, answers: Answers, before: seq<Event>)
    returns (trace: seq<Event>, failure: Option<Cause>, attempts: nat)
    requires At(limits, answers, before, if 1 <= limits.maxRetries then Wait(1) else WriteDlq(NoError), 0, 0)
    ensures At(limits, answers, trace, if failure.Some? then WriteDlq(failure.value) else End, attempts, 0)
    ensures var k := FirstDecisive(limits, answers, 1);
            && attempts == (if k <= limits.maxRetries then k else limits.maxRetries)
            && (failure.None? <==> k <= limits.maxRetries && answers.attempt(k).Returns?)
            && (failure.Some? ==> IsFailure(limits, answers, k, failure.value))
  {
    trace := before;
    var lastError := NoError;
    var attempt := 1;
    while attempt <= limits.maxRetries
      invariant 1 <= attempt <= limits.maxRetries + 1
      invariant At(limits, answers, trace,
                   if attempt <= limits.maxRetries then Wait(attempt) else WriteDlq(lastError), attempt - 1, 0)
      invariant forall j :: 1 <= j < attempt ==> !Decisive(answers, j)
      invariant if attempt == 1 then lastError == NoError
                else lastError.LastError? && FailsWith(answers, attempt - 1, lastError.error)
    {
      var result;
      trace, result := TryOnce(limits, answers, trace, attempt);
      match result {
        case Handled =>
          DecisiveIsFirst(limits, answers, attempt);
          return trace, None, attempt;
        case GiveUp(message) =>
          DecisiveIsFirst(limits, answers, attempt);
          return trace, Some(NonRetryable(message)), attempt;
        case Retry(error) => lastError := LastError(error);
      }
      if attempt < limits.maxRetries {
        PlayOne(limits, answers, trace, Slept, Sleep(attempt), attempt, 0, Wait(attempt + 1));
        trace := trace + [Slept];
      }
      attempt := attempt + 1;
    }
    DecisiveIsFirst(limits, answers, attempt);
    return trace, Some(lastError), limits.maxRetries;
  }

  lemma DecisiveIsFirst(limits: Limits, answers: Answers, k: nat)
    requires 1 <= k <= limits.maxRetries + 1
    requires forall j :: 1 <= j < k ==> !Decisive(answers, j)
    requires k <= limits.maxRetries ==> Decisive(answers, k)
    ensures FirstDecisive(limits, answers, 1) == k
  {
    var first := FirstDecisive(limits, answers, 1);
    assert !(first < k) && !(k < first);
  }

  /** How the body of the retry loop goes on. */
  datatype TryResult = Handled | GiveUp(message: string) | Retry(error: string)

  /** The `try` block of one attempt: the slot, `process_message`, the XACK, and the two `except` clauses. */
  method TryOnce(limits: Limits, answers: Answers, before: seq<Event>, attempt: nat)
    returns (trace: seq<Event>, result: TryResult)
    requires 1 <= attempt <= limits.maxRetries
    requires At(limits, answers, before, Wait(attempt), attempt - 1, 0)
    ensures result.Retry? <==> !Decisive(answers, attempt)
    ensures result.Retry? ==> FailsWith(answers, attempt, result.error)
    ensures result.Handled? ==> answers.attempt(attempt).Returns?
    ensures result.GiveUp? ==> answers.attempt(attempt) == RaisesNonRetryable(result.message)
    ensures At(limits, answers, trace,
               match result
               case Handled => End
               case GiveUp(message) => WriteDlq(NonRetryable(message))
               case Retry(error) => AfterFailure(limits, attempt, error),
               attempt, 0)
  {
    PlayOne(limits, answers, before, Acquired, Wait(attempt), attempt - 1, 0, Process(attempt));
    trace := before + [Acquired];
    var outcome := answers.attempt(attempt);
    ghost var after := Next(limits, Process(attempt), Processed(outcome)).value;
    PlayOne(limits, answers, trace, Processed(outcome), Process(attempt), attempt - 1, 0, after);
    trace := trace + [Processed(outcome)];
    match outcome {
      case Returns =>
        var reply := answers.ack(attempt);
        ghost var acked := Next(limits, AckProcessed(attempt), Acked(reply)).value;
        PlayOne(limits, answers, trace, Acked(reply), AckProcessed(attempt), attempt, 0, acked);
        trace := trace + [Acked(reply)];
        result := if reply.Done? then Handled else Retry(reply.error);
      case RaisesNonRetryable(message) => result := GiveUp(message);
      case Raises(error) => result := Retry(error);
    }
  }

  /** `_send_to_dlq`, then the XACK: skipped when the write raised. */
  method SendToDlq(limits: Limits, answers: Answers, before: seq<Event>, cause: Cause, ghost attempts: nat)
    returns (trace: seq<Event>)
    requires At(limits, answers, before, WriteDlq(cause), attempts, 0)
    ensures At(limits, answers, trace, End, attempts, 1)
  {
    ghost var after := if answers.dlq.Done? then AckDlq else End;
    PlayOne(limits, answers, before, DeadLettered(answers.dlq), WriteDlq(cause), attempts, 0, after);
    trace := before + [DeadLettered(answers.dlq)];
    if answers.dlq.Done? {
      PlayOne(limits, answers, trace, Acked(answers.dlqAck), AckDlq, attempts, 1, End);
      trace := trace + [Acked(answers.dlqAck)];
    }
  }

  /** The answers of the environment leave no choice: two complete handlings under them are the same. */
  lemma AnswersDecide(limits: Limits, answers: Answers, a: seq<Event>, b: seq<Event>)
    requires Plays(limits, answers, a) && Plays(limits, answers, b) && |a| <= |b|
    ensures a == b[..|a|]
  {
    PlaysPrefix(limits, answers, b, |a|);
    SameTrace(limits, answers, a, b[..|a|]);
  }

  lemma {:induction false} SameTrace(limits: Limits, answers: Answers, a: seq<Event>, b: seq<Event>)
    requires Plays(limits, answers, a) && Plays(limits, answers, b) && |a| == |b|
    ensures a == b
  {
    if a == [] {
    } else {
      var n := |a| - 1;
      SameTrace(limits, answers, a[..n], b[..n]);
      PlaysLast(limits, answers, a);
      PlaysLast(limits, answers, b);
      AgreeOnce(limits, answers, Follow(limits, Parse, a[..n]).value, a[n], b[n]);
      assert a == a[..n] + [a[n]] && b == b[..n] + [b[n]];
    }
  }

  /** The last event of a path that is played. */
  lemma PlaysLast(limits: Limits, answers: Answers, trace: seq<Event>)
    requires Plays(limits, answers, trace) && trace != []
    ensures var n := |trace| - 1; var before := Follow(limits, Parse, trace[..n]);
            && before.Some? && !before.value.Count? && !before.value.AckTrimmed?
            && Next(limits, before.value, trace[n]).Some? && Agrees(answers, before.value, trace[n])
  {
    var before := trace[..|trace| - 1];
    if before != [] {
      assert Follow(limits, Parse, before) ==
             Next(limits, Follow(limits, Parse, before[..|before| - 1]).value, before[|before| - 1]);
    }
  }

  lemma AgreeOnce(limits: Limits, answers: Answers, pc: Pc, e: Event, f: Event)
    requires Next(limits, pc, e).Some? && Next(limits, pc, f).Some?
    requires Agrees(answers, pc, e) && Agrees(answers, pc, f)
    requires !pc.Count? && !pc.AckTrimmed?
    ensures e == f
  {
  }

  lemma {:induction false} PlaysPrefix(limits: Limits, answers: Answers, trace: seq<Event>, i: nat)
    requires i <= |trace| && Plays(limits, answers, trace)
    ensures Plays(limits, answers, trace[..i])
  {
    if i == |trace| {
      assert trace[..i] == trace;
    } else {
      PlaysPrefix(limits, answers, trace[..|trace| - 1], i);
      assert trace[..|trace| - 1][..i] == trace[..i];
    }
  }
}
