/** The main loop of a consumer, `run`: when it reclaims, how it waits after a failure, and when it gives up. */
module RunLoop {
  import opened Common

  datatype Await = Returned | Failed | Cancelled

  /** `FailedAfterRead`: XREADGROUP returned, and what followed it in the loop raised. */
  datatype ReadAwait = ReadReturned | ReadFailed | FailedAfterRead | ReadCancelled

  /** What the environment does in one turn of the loop. */
  datatype Turn = Turn(
    now: real,              // the clock before the reclaim pass ...
    reclaim: Await,
    after: real,            // ... and after it
    read: ReadAwait,
    sleepCancelled: bool,   // the wait after a failure is cancelled
    stop: bool)             // `stop()` is called during the turn

  /** `floatDelay`: whether `loop_error_delay` is a float, which it may be, and not the integer of its default. */
  datatype Config = Config(
    maxLoopFailures: int, errorDelay: real, floatDelay: bool, errorMaxDelay: real, reclaimInterval: real)

  datatype Step = Success | Failure(afterRead: bool)

  datatype Ending = NoGroup | Stopped | GaveUp | Overflowed | CancelledInAwait | CancelledInSleep | StillRunning

  // ---------------------------------------------------------------- what a turn amounts to

  /** The time of the last pass that returned, before turn `n`. */
  function LastReclaim(config: Config, turns: seq<Turn>, n: nat): Option<real>
    requires n <= |turns|
    decreases n, 0
  {
    if n == 0 then None
    else if Due(config, turns, n - 1) && turns[n - 1].reclaim.Returned? then Some(turns[n - 1].after)
    else LastReclaim(config, turns, n - 1)
  }

  predicate Due(config: Config, turns: seq<Turn>, n: nat)
    requires n < |turns|
    decreases n, 1
  {
    IsDue(config, LastReclaim(config, turns, n), turns[n].now)
  }

  predicate IsDue(config: Config, last: Option<real>, now: real) {
    last.None? || now - last.value >= config.reclaimInterval
  }

  predicate CancelsTurn(turn: Turn, due: bool) {
    (due && turn.reclaim.Cancelled?) || (!(due && turn.reclaim.Failed?) && turn.read.ReadCancelled?)
  }

  function StepOf(turn: Turn, due: bool): Step {
    if due && turn.reclaim.Failed? then Failure(false)
    else if turn.read.ReadFailed? then Failure(false)
    else if turn.read.FailedAfterRead? then Failure(true)
    else Success
  }

  // ---------------------------------------------------------------- failures in a row

  function InARow(steps: seq<Step>): nat {
    if steps == [] then 0
    else
      match steps[|steps| - 1]
      case Success => 0
      case Failure(true) => 1
      case Failure(false) => InARow(steps[..|steps| - 1]) + 1
  }

  /** The last `n` steps failed, and XREADGROUP returned in none of them but, at most, the first. */
  ghost predicate FailedLast(steps: seq<Step>, n: nat) {
    && n <= |steps|
    && (forall i :: |steps| - n <= i < |steps| ==> steps[i].Failure?)
    && (forall i :: |steps| - n < i < |steps| ==> !steps[i].afterRead)
  }

  lemma {:induction false} InARowMeans(steps: seq<Step>, n: nat)
    ensures InARow(steps) >= n <==> FailedLast(steps, n)
  {
    if n > 0 && steps != [] {
      var shorter := steps[..|steps| - 1];
      InARowMeans(shorter, n - 1);
      if FailedLast(steps, n) {
        assert steps[|steps| - 1].Failure?;
        if n > 1 {
          assert FailedLast(shorter, n - 1);
        }
      }
    }
  }

  predicate GivesUp(config: Config, failures: nat) {
    config.maxLoopFailures != 0 && failures >= config.maxLoopFailures
  }

  /** The largest power of two that Python turns into a float is 2^1023; the wait is computed before the give-up. */
  const MAX_EXPONENT: nat := 1023

  predicate Overflows(config: Config, failures: nat) {
    config.floatDelay && failures > MAX_EXPONENT + 1
  }

  // ---------------------------------------------------------------- the waits

  /** `d` doubled `n` times. */
  function Doubled(d: real, n: nat): real {
    if n == 0 then d else 2.0 * Doubled(d, n - 1)
  }

  function Delay(config: Config, failures: nat): real
    requires failures >= 1
  {
    Min(Doubled(config.errorDelay, failures - 1), config.errorMaxDelay)
  }

  lemma {:induction false} DoubledIsPower(d: real, n: nat)
    ensures Doubled(d, n) == d * (Pow2(n) as real)
  {
    if n == 0 {
    } else {
      DoubledIsPower(d, n - 1);
      var p := Pow2(n - 1) as real;
      assert Pow2(n) as real == 2.0 * p;
      assert 2.0 * (d * p) == d * (2.0 * p);
    }
  }

  /** The k-th wait of a streak is min(d * 2^(k - 1), M). */
  lemma DelayIsPower(config: Config, failures: nat)
    requires failures >= 1
    ensures Delay(config, failures) ==
            Min(config.errorDelay * (Pow2(failures - 1) as real), config.errorMaxDelay)
  {
    var product := config.errorDelay * (Pow2(failures - 1) as real);
    DoubledIsPower(config.errorDelay, failures - 1);
    assert Doubled(config.errorDelay, failures - 1) == product;
  }

  /** The waits of a run that has made `steps` and gone on after each of them. */
  function Waits(config: Config, steps: seq<Step>): seq<real> {
    if steps == [] then []
    else
      Waits(config, steps[..|steps| - 1]) +
      (if steps[|steps| - 1].Failure? then [Delay(config, InARow(steps))] else [])
  }

  lemma {:induction false} DoubledGrows(d: real, n: nat)
    requires d >= 0.0
    ensures 0.0 <= Doubled(d, n) <= Doubled(d, n + 1)
  {
    if n == 0 {
    } else {
      DoubledGrows(d, n - 1);
    }
  }

  lemma DelayGrows(config: Config, failures: nat)
    requires failures >= 1 && config.errorDelay >= 0.0
    ensures Delay(config, failures) <= Delay(config, failures + 1) <= config.errorMaxDelay
  {
    DoubledGrows(config.errorDelay, failures - 1);
  }

  function Total(waits: seq<real>): real {
    if waits == [] then 0.0 else Total(waits[..|waits| - 1]) + waits[|waits| - 1]
  }

  function StreakWaits(config: Config, n: nat): seq<real> {
    if n == 0 then [] else StreakWaits(config, n - 1) + [Delay(config, n)]
  }

  ghost predicate EndsWith(waits: seq<real>, tail: seq<real>) {
    |tail| <= |waits| && waits[|waits| - |tail|..] == tail
  }

  /** The waits of the current streak of failures are the last ones of the run. */
  lemma {:induction false} StreakEndsTheWaits(config: Config, steps: seq<Step>)
    ensures EndsWith(Waits(config, steps), StreakWaits(config, InARow(steps)))
  {
    if steps == [] {
    } else {
      var shorter := steps[..|steps| - 1];
      StreakEndsTheWaits(config, shorter);
      var waits, streak := Waits(config, steps), StreakWaits(config, InARow(steps));
      match steps[|steps| - 1] {
        case Success =>
        case Failure(true) =>
          assert streak == StreakWaits(config, 0) + [Delay(config, 1)];
        case Failure(false) =>
          var before, beforeStreak := Waits(config, shorter), StreakWaits(config, InARow(shorter));
          assert waits == before + [Delay(config, InARow(steps))];
          assert streak == beforeStreak + [Delay(config, InARow(steps))];
          assert before == before[..|before| - |beforeStreak|] + beforeStreak;
      }
    }
  }

  lemma {:induction false} StreakTotal(config: Config, n: nat)
    ensures Total(StreakWaits(config, n)) <= Repeated(n, config.errorMaxDelay)
  {
    if n == 0 {
    } else {
      StreakTotal(config, n - 1);
      var waits := StreakWaits(config, n);
      assert waits[..|waits| - 1] == StreakWaits(config, n - 1);
      assert Delay(config, n) <= config.errorMaxDelay;
    }
  }

  lemma StreakTotalBound(config: Config, n: nat)
    ensures Total(StreakWaits(config, n)) <= n as real * config.errorMaxDelay
  {
    StreakTotal(config, n);
    RepeatedIsProduct(n, config.errorMaxDelay);
  }

  /** The waits of the 1st, 2nd, ... failure in a row, which do not decrease. */
  ghost predicate AreDelays(config: Config, streak: seq<real>) {
    && (forall k :: 0 <= k < |streak| ==> streak[k] == Delay(config, k + 1))
    && (config.errorDelay >= 0.0 ==> forall k :: 0 < k < |streak| ==> streak[k - 1] <= streak[k])
  }

  lemma {:induction false} StreakGrows(config: Config, n: nat)
    ensures |StreakWaits(config, n)| == n && AreDelays(config, StreakWaits(config, n))
  {
    if n == 0 {
    } else {
      StreakGrows(config, n - 1);
      if config.errorDelay >= 0.0 && n > 1 {
        DelayGrows(config, n - 1);
      }
    }
  }

  predicate Raises(config: Config, failures: nat) {
    GivesUp(config, failures) || Overflows(config, failures)
  }

  /** No step has made the loop raise. */
  predicate NeverRaised(config: Config, steps: seq<Step>) {
    steps == [] ||
    (NeverRaised(config, steps[..|steps| - 1]) &&
     !(steps[|steps| - 1].Failure? && Raises(config, InARow(steps))))
  }

  function WithoutLast(steps: seq<Step>): seq<Step> {
    if steps == [] then [] else steps[..|steps| - 1]
  }

  /** What the loop does at the end of a turn: how it ends, if it does. */
  function EndOfTurn(config: Config, turn: Turn, step: Step, failures: nat): Option<Ending> {
    if step.Failure? && Overflows(config, failures) then Some(Overflowed)
    else if step.Failure? && GivesUp(config, failures) then Some(GaveUp)
    else if step.Failure? && turn.sleepCancelled then Some(CancelledInSleep)
    else if turn.stop then Some(Stopped)
    else None
  }

  function LastEnd(config: Config, turns: seq<Turn>, steps: seq<Step>): Option<Ending>
    requires |steps| <= |turns|
  {
    if steps == [] then None
    else EndOfTurn(config, turns[|steps| - 1], steps[|steps| - 1], InARow(steps))
  }

  /** Turn `n` amounts to this step, and was not cancelled. */
  predicate IsStep(config: Config, turns: seq<Turn>, n: nat, step: Step)
    requires n < |turns|
  {
    step == StepOf(turns[n], Due(config, turns, n)) && !CancelsTurn(turns[n], Due(config, turns, n))
  }

  /** The loop comes to make these steps for the first turns: none but the last may have ended it. */
  ghost predicate Reached(config: Config, turns: seq<Turn>, steps: seq<Step>) {
    steps == [] ||
    var before := steps[..|steps| - 1];
    && Reached(config, turns, before)
    && |steps| <= |turns|
    && LastEnd(config, turns, before).None?
    && IsStep(config, turns, |before|, steps[|before|])
  }

  lemma OneMoreTurn(config: Config, turns: seq<Turn>, steps: seq<Step>, step: Step)
    requires Reached(config, turns, steps) && |steps| < |turns| && LastEnd(config, turns, steps).None?
    requires IsStep(config, turns, |steps|, step)
    ensures var more := steps + [step];
            && Reached(config, turns, more) && WithoutLast(more) == steps
            && InARow(more) == (if step.Success? then 0 else if step.afterRead then 1 else InARow(steps) + 1)
            && Waits(config, more) ==
                 Waits(config, steps) + (if step.Failure? then [Delay(config, InARow(more))] else [])
  {
    assert (steps + [step])[..|steps|] == steps;
  }

  /** How `run` goes with its group ready. */
  ghost predicate Ran(config: Config, turns: seq<Turn>, ending: Ending, steps: seq<Step>, waits: seq<real>) {
    && Reached(config, turns, steps) && |steps| <= |turns|
    && var ended := LastEnd(config, turns, steps);
    && waits == Waits(config, if ended.None? || ended.value.Stopped? then steps else WithoutLast(steps))
    && if ended.Some? then ending == ended.value
       else if |steps| == |turns| then ending == StillRunning
       else ending == CancelledInAwait && CancelsTurn(turns[|steps|], Due(config, turns, |steps|))
  }

  lemma {:induction false} ReachedBefore(config: Config, turns: seq<Turn>, steps: seq<Step>, n: nat)
    requires n < |steps| <= |turns| && Reached(config, turns, steps)
    ensures Reached(config, turns, steps[..n]) && LastEnd(config, turns, steps[..n]).None?
    ensures IsStep(config, turns, n, steps[n])
  {
    var before := steps[..|steps| - 1];
    if n < |before| {
      ReachedBefore(config, turns, before, n);
      assert before[..n] == steps[..n];
    }
  }

  lemma {:induction false} NoneRaised(config: Config, turns: seq<Turn>, steps: seq<Step>)
    requires |steps| <= |turns| && Reached(config, turns, steps)
    ensures NeverRaised(config, WithoutLast(steps))
  {
    if steps == [] {
    } else {
      NoneRaised(config, turns, steps[..|steps| - 1]);
    }
  }

  /**
   In words: the loop raises a loop error exactly when the last turn failed and was the
   `max_loop_failures`-th failure in a row (and its wait did not overflow), and never before; it stops, or
   is cancelled in its wait, exactly when the last turn had it so and the loop did not raise.
   */
  lemma EndingMeans(config: Config, turns: seq<Turn>, ending: Ending, steps: seq<Step>, waits: seq<real>)
    requires Ran(config, turns, ending, steps, waits)
    ensures var failed := steps != [] && steps[|steps| - 1].Failure?;
            var n := InARow(steps);
            && (ending.Overflowed? <==> failed && Overflows(config, n))
            && (ending.GaveUp? <==> failed && GivesUp(config, n) && !Overflows(config, n))
            && (ending.CancelledInSleep? <==> failed && !Raises(config, n) && turns[|steps| - 1].sleepCancelled)
            && (ending.Stopped? <==> steps != [] && turns[|steps| - 1].stop
                                     && !(failed && (Raises(config, n) || turns[|steps| - 1].sleepCancelled)))
    ensures NeverRaised(config, WithoutLast(steps))
    ensures forall i :: 0 <= i < |steps| ==> IsStep(config, turns, i, steps[i])
    ensures forall i :: 0 <= i < |steps| - 1 ==>
              !turns[i].stop && (steps[i].Failure? ==> !turns[i].sleepCancelled)
  {
    NoneRaised(config, turns, steps);
    forall i | 0 <= i < |steps|
      ensures IsStep(config, turns, i, steps[i])
      ensures i < |steps| - 1 ==> !turns[i].stop && (steps[i].Failure? ==> !turns[i].sleepCancelled)
    {
      ReachedBefore(config, turns, steps, i);
      if i < |steps| - 1 {
        ReachedBefore(config, turns, steps, i + 1);
      }
    }
  }

  /** The turns leave no choice: there is one way to run them. */
  lemma OneRun(config: Config, turns: seq<Turn>, ending: Ending, steps: seq<Step>, waits: seq<real>,
               ending': Ending, steps': seq<Step>, waits': seq<real>)
    requires Ran(config, turns, ending, steps, waits) && Ran(config, turns, ending', steps', waits')
    ensures ending == ending' && steps == steps' && waits == waits'
  {
    NotShorter(config, turns, ending, steps, waits, steps');
    NotShorter(config, turns, ending', steps', waits', steps);
    SameSteps(config, turns, steps, steps');
  }

  lemma {:induction false} SameSteps(config: Config, turns: seq<Turn>, a: seq<Step>, b: seq<Step>)
    requires Reached(config, turns, a) && Reached(config, turns, b) && |a| == |b|
    ensures a == b
  {
    if a == [] {
    } else {
      var n := |a| - 1;
      SameSteps(config, turns, a[..n], b[..n]);
      assert a == a[..n] + [a[n]] && b == b[..n] + [b[n]];
    }
  }

  lemma NotShorter(config: Config, turns: seq<Turn>, ending: Ending, steps: seq<Step>, waits: seq<real>,
                   other: seq<Step>)
    requires Ran(config, turns, ending, steps, waits)
    requires Reached(config, turns, other) && |other| <= |turns|
    ensures |steps| >= |other|
  {
    var n := |steps|;
    if n < |other| {
      ReachedBefore(config, turns, other, n);
      SameSteps(config, turns, steps, other[..n]);
      assert false;
    }
  }

  /** What `_is_running` says at the end: only a stop, a cancelled await and giving up clear it. */
  predicate CountsAsRunning(turns: seq<Turn>, ending: Ending, steps: seq<Step>) {
    || ending.StillRunning?
    || ((ending.CancelledInSleep? || ending.Overflowed?) && 0 < |steps| <= |turns| && !turns[|steps| - 1].stop)
  }

  // ---------------------------------------------------------------- the code of `run`

  class Consumer {
    const config: Config
    var isRunning: bool

    constructor (config: Config)
      ensures this.config == config && !isRunning
    {
      this.config := config;
      this.isRunning := false;
    }

    /** The `try` of one turn: the reclaim pass when it is due, the XREADGROUP, and what follows it. */
    method Try(turn: Turn, lastReclaim: Option<real>, failures: nat)
      returns (step: Option<Step>, reclaimed: Option<real>, counted: nat)
      ensures var due := IsDue(config, lastReclaim, turn.now);
              && (step.None? <==> CancelsTurn(turn, due))
              && (step.Some? ==> step.value == StepOf(turn, due))
              && reclaimed == (if due && turn.reclaim.Returned? then Some(turn.after) else lastReclaim)
      ensures step.Some? ==> counted == if step.value == Failure(false) then failures else 0
    {
      step, reclaimed, counted := None, lastReclaim, failures;
      if lastReclaim.None? || turn.now - lastReclaim.value >= config.reclaimInterval {
        match turn.reclaim {
          case Cancelled => return;
          case Failed =>
            step := Some(Failure(false));
            return;
          case Returned => reclaimed := Some(turn.after);
        }
      }
      match turn.read {
        case ReadCancelled => return;
        case ReadFailed => step := Some(Failure(false));
        case ReadReturned =>
          counted := 0;
          step := Some(Success);
        case FailedAfterRead =>
          counted := 0;
          step := Some(Failure(true));
      }
    }

    /**
     `run`, until it ends or the given turns are over. It raises a loop error exactly when the failures in
     a row reach the limit, and at the first turn where they do, unless the wait overflowed before; it waits
     after every other failure. When it is over it is not running, unless the wait overflowed or was
     cancelled and no `stop()` had come.
     */
    method Run(groupReady: bool, turns: seq<Turn>) returns (ending: Ending, steps: seq<Step>, waits: seq<real>)
      modifies this`isRunning
      ensures ending.NoGroup? <==> !groupReady
      ensures !groupReady ==> steps == [] && waits == [] && isRunning == old(isRunning)
      ensures groupReady ==> Ran(config, turns, ending, steps, waits)
      ensures groupReady ==> isRunning == CountsAsRunning(turns, ending, steps)
    {
      steps, waits := [], [];
      if !groupReady {
        return NoGroup, steps, waits;
      }
      isRunning := true;
      var failures := 0;
      var lastReclaim: Option<real> := None;
      while isRunning && |steps| < |turns|
        invariant |steps| <= |turns| && Reached(config, turns, steps) && waits == Waits(config, steps)
        invariant lastReclaim == LastReclaim(config, turns, |steps|) && failures == InARow(steps)
        invariant LastEnd(config, turns, steps) == if isRunning then None else Some(Stopped)
        decreases |turns| - |steps|
      {
        var ended;
        ended, steps, waits, lastReclaim, failures := TakeTurn(turns, steps, waits, lastReclaim, failures);
        if ended.Some? && !ended.value.Stopped? {
          return ended.value, steps, waits;
        }
      }
      ending := if isRunning then StillRunning else Stopped;
    }

    /** One turn of the loop. */
    method TakeTurn(turns: seq<Turn>, before: seq<Step>, waited: seq<real>, lastReclaim: Option<real>, failures: nat)
      returns (ended: Option<Ending>, steps: seq<Step>, waits: seq<real>, reclaimed: Option<real>, counted: nat)
      requires isRunning && |before| < |turns|
      requires Reached(config, turns, before) && LastEnd(config, turns, before).None? && waited == Waits(config, before)
      requires lastReclaim == LastReclaim(config, turns, |before|) && failures == InARow(before)
      modifies this`isRunning
      ensures ended.Some? && !ended.value.Stopped? ==> Ran(config, turns, ended.value, steps, waits)
      ensures ended.None? || ended.value.Stopped? ==>
                && |steps| == |before| + 1 && Reached(config, turns, steps) && waits == Waits(config, steps)
                && LastEnd(config, turns, steps) == ended
                && reclaimed == LastReclaim(config, turns, |steps|) && counted == InARow(steps)
      ensures isRunning == (ended.None? || CountsAsRunning(turns, ended.value, steps))
      ensures ended != Some(NoGroup) && ended != Some(StillRunning)
    {
      var turn := turns[|before|];
      var step;
      step, reclaimed, counted := Try(turn, lastReclaim, failures);
      if step.None? {
        isRunning := false;
        return Some(CancelledInAwait), before, waited, reclaimed, counted;
      }
      OneMoreTurn(config, turns, before, step.value);
      steps := before + [step.value];
      var more;
      ended, counted, more := AfterTry(turn, step.value, counted);
      if ended.None? || ended.value.Stopped? {
        waits := waited + more;
      } else {
        waits := waited;
      }
    }

    /** The rest of a turn: the `except` of a failure, with its wait, and a `stop()` that came meanwhile. */
    method AfterTry(turn: Turn, step: Step, failures: nat)
      returns (ended: Option<Ending>, counted: nat, waited: seq<real>)
      requires isRunning
      modifies this`isRunning
      ensures counted == if step.Failure? then failures + 1 else failures
      ensures ended == EndOfTurn(config, turn, step, counted)
      ensures isRunning ==
              (ended.None? || ((ended.value.Overflowed? || ended.value.CancelledInSleep?) && !turn.stop))
      ensures waited == if step.Failure? && (ended.None? || ended.value.Stopped?) then [Delay(config, counted)] else []
    {
      ended, counted, waited := None, failures, [];
      if step.Failure? {
        counted := failures + 1;
        if Overflows(config, counted) {
          isRunning := !turn.stop;   // a `stop()` of this turn came before the error
          return Some(Overflowed), counted, waited;
        }
        if config.maxLoopFailures != 0 && counted >= config.maxLoopFailures {
          isRunning := false;
          return Some(GaveUp), counted, waited;
        }
        if turn.sleepCancelled {
          isRunning := !turn.stop;
          return Some(CancelledInSleep), counted, waited;
        }
        waited := [Delay(config, counted)];
      }
      if turn.stop {
        isRunning := false;
        ended := Some(Stopped);
      }
    }
  }

  /**
   Give-up, in the words of the promise: `max_loop_failures` is not 0, and the last that many turns failed
   with no XREADGROUP returning between the first and the last of those failures.
   */
  lemma GivesUpMeans(config: Config, steps: seq<Step>)
    requires config.maxLoopFailures >= 0
    ensures steps != [] && steps[|steps| - 1].Failure? && GivesUp(config, InARow(steps)) <==>
            config.maxLoopFailures > 0 && FailedLast(steps, config.maxLoopFailures)
  {
    InARowMeans(steps, config.maxLoopFailures);
  }

  lemma CountAtGiveUp(config: Config, steps: seq<Step>)
    requires config.maxLoopFailures > 0 && NeverRaised(config, WithoutLast(steps))
    requires steps != [] && steps[|steps| - 1].Failure? && GivesUp(config, InARow(steps))
    ensures InARow(steps) == config.maxLoopFailures
    ensures InARow(WithoutLast(steps)) == config.maxLoopFailures - 1 || config.maxLoopFailures == 1
  {
    var before := WithoutLast(steps);
    if steps[|steps| - 1] == Failure(false) && InARow(before) > 0 {
      InARowMeans(before, 1);
    }
  }

  /**
   The price of giving up: the loop gives up at exactly n = `max_loop_failures` failures in a row. The waits it
   made on the way, the last ones of the run, are those of the 1st to the (n - 1)th failure, do not decrease, and
   total at most (n - 1) * `loop_error_max_delay`.
   */
  lemma GiveUpWaits(config: Config, steps: seq<Step>) returns (streak: seq<real>)
    requires config.maxLoopFailures > 0 && NeverRaised(config, WithoutLast(steps))
    requires steps != [] && steps[|steps| - 1].Failure? && GivesUp(config, InARow(steps))
    ensures InARow(steps) == config.maxLoopFailures
    ensures |streak| == config.maxLoopFailures - 1 && EndsWith(Waits(config, WithoutLast(steps)), streak)
    ensures AreDelays(config, streak) && Total(streak) <= |streak| as real * config.errorMaxDelay
  {
    GiveUpTail(config, steps);
    streak := StreakCosts(config, config.maxLoopFailures - 1);
  }

  lemma StreakCosts(config: Config, n: nat) returns (streak: seq<real>)
    ensures streak == StreakWaits(config, n) && |streak| == n && AreDelays(config, streak)
    ensures Total(streak) <= |streak| as real * config.errorMaxDelay
  {
    streak := StreakWaits(config, n);
    StreakTotalBound(config, n);
    StreakGrows(config, n);
  }

  lemma GiveUpTail(config: Config, steps: seq<Step>)
    requires config.maxLoopFailures > 0 && NeverRaised(config, WithoutLast(steps))
    requires steps != [] && steps[|steps| - 1].Failure? && GivesUp(config, InARow(steps))
    ensures InARow(steps) == config.maxLoopFailures
    ensures EndsWith(Waits(config, WithoutLast(steps)), StreakWaits(config, config.maxLoopFailures - 1))
  {
    CountAtGiveUp(config, steps);
    StreakEndsTheWaits(config, WithoutLast(steps));
    if config.maxLoopFailures == 1 {
      assert StreakWaits(config, 0) == [];
    }
  }

  /**
   The code meets `0 means never give up` exactly when the wait stays an integer: with a float
   `loop_error_delay` the loop raises by itself, at 1025 failures in a row.
   */
  lemma NeverGivesUpMeans(config: Config, steps: seq<Step>)
    requires config.maxLoopFailures == 0 && steps != [] && NeverRaised(config, WithoutLast(steps))
    ensures NeverRaised(config, steps) <==> !(config.floatDelay && FailedLast(steps, 1025))
    ensures !NeverRaised(config, steps) ==> InARow(steps) == 1025
  {
    InARowMeans(steps, 1025);
    var before := WithoutLast(steps);
    if FailedLast(steps, 1025) {
      assert steps[|steps| - 1].Failure?;
    }
    if InARow(steps) > 1025 {
      assert InARow(before) > 1024 && before != [];
      InARowMeans(before, 1);
    }
  }

  /** 1025 failures in a row, and the last of them raises although the loop is never to give up. */
  lemma OverflowHappens(config: Config) returns (steps: seq<Step>)
    requires config.maxLoopFailures == 0 && config.floatDelay
    ensures |steps| == 1025 && NeverRaised(config, WithoutLast(steps)) && !NeverRaised(config, steps)
  {
    var before := AllFail(config, 1024);
    steps := before + [Failure(false)];
    assert steps[..1024] == before;
  }

  lemma {:induction false} AllFail(config: Config, n: nat) returns (steps: seq<Step>)
    requires config.maxLoopFailures == 0 && n <= 1024
    ensures |steps| == n == InARow(steps) && NeverRaised(config, steps)
  {
    if n == 0 {
      steps := [];
    } else {
      var before := AllFail(config, n - 1);
      steps := before + [Failure(false)];
      assert steps[..n - 1] == before;
    }
  }

  /** Two passes that returned are `reclaim_interval_s` apart, from the end of one to the start of the next. */
  lemma {:induction false} PassesAreApart(config: Config, turns: seq<Turn>, i: nat, j: nat)
    requires i < j < |turns|
    requires Due(config, turns, i) && turns[i].reclaim.Returned?
    requires Due(config, turns, j)
    requires forall k :: i < k < j ==> !(Due(config, turns, k) && turns[k].reclaim.Returned?)
    ensures turns[j].now - turns[i].after >= config.reclaimInterval
  {
    LastReclaimStays(config, turns, i, j);
  }

  lemma {:induction false} LastReclaimStays(config: Config, turns: seq<Turn>, i: nat, j: nat)
    requires i < j <= |turns|
    requires Due(config, turns, i) && turns[i].reclaim.Returned?
    requires forall k :: i < k < j ==> !(Due(config, turns, k) && turns[k].reclaim.Returned?)
    ensures LastReclaim(config, turns, j) == Some(turns[i].after)
  {
    if i + 1 < j {
      LastReclaimStays(config, turns, i, j - 1);
    }
  }

  // ---------------------------------------------------------------- the same, told by the turns

  /** An await of the loop's `try` is cancelled in this turn: the due pass, or the XREADGROUP that comes to be sent. */
  predicate Interrupted(config: Config, turns: seq<Turn>, n: nat)
    requires n < |turns|
  {
    if Due(config, turns, n) && !turns[n].reclaim.Returned? then turns[n].reclaim.Cancelled?
    else turns[n].read.ReadCancelled?
  }

  /** XREADGROUP returns in this turn. */
  predicate ReadReturns(config: Config, turns: seq<Turn>, n: nat)
    requires n < |turns|
  {
    && (turns[n].read.ReadReturned? || turns[n].read.FailedAfterRead?)
    && !(Due(config, turns, n) && turns[n].reclaim.Failed?)
  }

  /** The due pass of this turn raises, or its XREADGROUP does, or what follows it. */
  predicate TurnFails(config: Config, turns: seq<Turn>, n: nat)
    requires n < |turns|
  {
    || (Due(config, turns, n) && turns[n].reclaim.Failed?)
    || turns[n].read.ReadFailed? || turns[n].read.FailedAfterRead?
  }

  /** The last `n` of the first `turn` turns failed, and XREADGROUP returned in none of them after the first. */
  ghost predicate FailedInARow(config: Config, turns: seq<Turn>, turn: nat, n: nat)
    requires turn <= |turns|
  {
    && n <= turn
    && (forall i :: turn - n <= i < turn ==> TurnFails(config, turns, i))
    && (forall i :: turn - n < i < turn ==> !ReadReturns(config, turns, i))
  }

  /** What the loop makes of the turns it takes. */
  lemma StepsAreTurns(config: Config, turns: seq<Turn>, ending: Ending, steps: seq<Step>, waits: seq<real>)
    requires Ran(config, turns, ending, steps, waits)
    ensures forall i :: 0 <= i < |steps| ==>
              && !Interrupted(config, turns, i)
              && (steps[i].Failure? <==> TurnFails(config, turns, i))
              && (ReadReturns(config, turns, i) <==> steps[i] != Failure(false))
    ensures ending.CancelledInAwait? ==> |steps| < |turns| && Interrupted(config, turns, |steps|)
    ensures ending.StillRunning? ==> |steps| == |turns|
    ensures !ending.NoGroup?
  {
    EndingMeans(config, turns, ending, steps, waits);
    assert forall i :: 0 <= i < |steps| ==> IsStep(config, turns, i, steps[i]);
  }

  lemma RowOfSteps(config: Config, turns: seq<Turn>, ending: Ending, steps: seq<Step>, waits: seq<real>, k: nat, n: nat)
    requires Ran(config, turns, ending, steps, waits) && k <= |steps|
    ensures FailedInARow(config, turns, k, n) <==> InARow(steps[..k]) >= n
  {
    StepsAreTurns(config, turns, ending, steps, waits);
    InARowMeans(steps[..k], n);
    if FailedInARow(config, turns, k, n) {
      forall i | k - n <= i < k
        ensures steps[i].Failure? && (i > k - n ==> !steps[i].afterRead)
      {
        assert TurnFails(config, turns, i) && (i > k - n ==> !ReadReturns(config, turns, i));
      }
    }
    if FailedLast(steps[..k], n) {
      forall i | k - n <= i < k
        ensures TurnFails(config, turns, i) && (i > k - n ==> !ReadReturns(config, turns, i))
      {
        assert steps[..k][i] == steps[i];
      }
    }
  }

  /** How many failures in a row the loop gives up at; a negative limit is as good as 1. */
  function Limit(config: Config): nat {
    if config.maxLoopFailures < 1 then 1 else config.maxLoopFailures
  }

  /**
   Give-up over whole runs: the loop gives up when, and the first time that, `max_loop_failures` turns in a row have
   failed with no XREADGROUP returning between the first and the last of those failures; with 0 it never does. The one
   exception is a float delay, whose wait overflows at the 1025th failure.
   */
  lemma GivesUpByTurns(config: Config, turns: seq<Turn>, ending: Ending, steps: seq<Step>, waits: seq<real>)
    requires Ran(config, turns, ending, steps, waits)
    ensures var overflowed := config.floatDelay && FailedInARow(config, turns, |steps|, 1025);
            && (ending.Overflowed? <==> overflowed)
            && (ending.GaveUp? <==>
                  config.maxLoopFailures != 0 && FailedInARow(config, turns, |steps|, Limit(config)) && !overflowed)
    ensures config.maxLoopFailures != 0 ==>
              forall k :: 0 <= k < |steps| ==> !FailedInARow(config, turns, k, Limit(config))
  {
    EndingMeans(config, turns, ending, steps, waits);
    assert steps[..|steps|] == steps;
    RowOfSteps(config, turns, ending, steps, waits, |steps|, 1025);
    RowOfSteps(config, turns, ending, steps, waits, |steps|, Limit(config));
    InARowMeans(steps, 1);
    if config.maxLoopFailures != 0 {
      forall k: nat | k < |steps|
        ensures !FailedInARow(config, turns, k, Limit(config))
      {
        RowOfSteps(config, turns, ending, steps, waits, k, Limit(config));
        NotYet(config, steps, k);
      }
    }
  }

  lemma {:induction false} NotYet(config: Config, steps: seq<Step>, k: nat)
    requires config.maxLoopFailures != 0 && k < |steps| && NeverRaised(config, WithoutLast(steps))
    ensures InARow(steps[..k]) < Limit(config)
  {
    if k < |steps| - 1 {
      var before := steps[..|steps| - 1];
      assert before[..|before| - 1] == WithoutLast(before) && before[..k] == steps[..k];
      NotYet(config, before, k);
    } else {
      var before := steps[..k];
      InARowMeans(before, 1);
      assert before == WithoutLast(steps);
    }
  }

  /**
   When a pass is due, with a clock that does not go back: exactly when the interval has gone by since the end of every
   pass that returned, so at once when none did.
   */
  lemma DueMeans(config: Config, turns: seq<Turn>, n: nat)
    requires n < |turns| && forall i, j :: 0 <= i < j < |turns| ==> turns[i].after <= turns[j].after
    ensures Due(config, turns, n) <==>
            forall i :: 0 <= i < n && Due(config, turns, i) && turns[i].reclaim.Returned? ==>
              turns[n].now - turns[i].after >= config.reclaimInterval
  {
    LastIsLatest(config, turns, n);
  }

  lemma {:induction false} LastIsLatest(config: Config, turns: seq<Turn>, n: nat)
    requires n <= |turns| && forall i, j :: 0 <= i < j < |turns| ==> turns[i].after <= turns[j].after
    ensures var last := LastReclaim(config, turns, n);
            && (forall i :: 0 <= i < n && Due(config, turns, i) && turns[i].reclaim.Returned? ==>
                  last.Some? && turns[i].after <= last.value)
            && (last.Some? ==> exists i :: 0 <= i < n && Due(config, turns, i) && turns[i].reclaim.Returned?
                                           && turns[i].after == last.value)
  {
    if n == 0 {
    } else {
      LastIsLatest(config, turns, n - 1);
    }
  }
}
