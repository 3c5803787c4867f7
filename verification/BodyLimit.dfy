/**
 The middleware that refuses a multipart body above a size.

 The application is any program that calls `receive` and `send`. It may await several calls at once,
 so a `receive` is two actions: the call begins, and later a message of the client arrives for it.
 */
module BodyLimit {
  import opened Common

  /** What the server hands to `receive`: a piece of the body (its length), the end, or something else. */
  datatype Incoming = Request(size: nat) | Disconnect | Other(tag: nat)

  /** What goes out on the wire: a message of the application, or the two messages of the refusal. */
  datatype Outgoing = FromApp(message: nat) | RefusalStart | RefusalBody

  datatype Action = Begin | Arrives | Sends(message: nat)

  /** How the application ends. */
  datatype Ending = Returns | RaisesClientDisconnect | RaisesOther

  datatype Outcome = Ended(ending: Ending) | ValueError

  type Client = nat -> Incoming

  // ---------------------------------------------------------------- the application on its own

  /** `given`: what `receive` returned so far. `taken`: how many messages the server handed over. */
  datatype View = View(waiting: nat, taken: nat, given: seq<Incoming>, wire: seq<Outgoing>)

  const START: View := View(0, 0, [], [])

  function DirectStep(client: Client, v: View, action: Action): View {
    match action
    case Begin => v.(waiting := v.waiting + 1)
    case Arrives =>
      if v.waiting == 0 then v else
      v.(waiting := v.waiting - 1, taken := v.taken + 1, given := v.given + [client(v.taken)])
    case Sends(message) => v.(wire := v.wire + [FromApp(message)])
  }

  function Direct(client: Client, actions: seq<Action>): View {
    if actions == [] then START
    else DirectStep(client, Direct(client, actions[..|actions| - 1]), actions[|actions| - 1])
  }

  /** The most `receive` calls that were awaited at once. */
  function Peak(client: Client, actions: seq<Action>): nat {
    if actions == [] then 0
    else Max(Peak(client, actions[..|actions| - 1]), Direct(client, actions).waiting)
  }

  // ---------------------------------------------------------------- the application behind the limit

  datatype State = State(view: View, received: nat, rejected: bool)

  const REFUSAL: seq<Outgoing> := [RefusalStart, RefusalBody]

  function Size(message: Incoming): nat {
    if message.Request? then message.size else 0
  }

  function GuardedStep(max: nat, client: Client, s: State, action: Action): State {
    var v := s.view;
    match action
    case Begin =>
      if s.rejected then s.(view := v.(given := v.given + [Disconnect]))
      else s.(view := v.(waiting := v.waiting + 1))
    case Arrives =>
      if v.waiting == 0 then s else
      var message := client(v.taken);
      var received := s.received + Size(message);
      var w := v.(waiting := v.waiting - 1, taken := v.taken + 1);
      if message.Request? && received > max then
        State(w.(given := w.given + [Disconnect], wire := w.wire + REFUSAL), received, true)
      else
        State(w.(given := w.given + [message]), received, s.rejected)
    case Sends(message) =>
      if s.rejected then s else s.(view := v.(wire := v.wire + [FromApp(message)]))
  }

  function Guarded(max: nat, client: Client, actions: seq<Action>): State {
    if actions == [] then State(START, 0, false)
    else GuardedStep(max, client, Guarded(max, client, actions[..|actions| - 1]), actions[|actions| - 1])
  }

  /** The two variables of one request, with the traffic around them. */
  class Session {
    const max: nat
    const client: Client
    var received: nat
    var rejected: bool
    var view: View

    function Now(): State
      reads this
    {
      State(view, received, rejected)
    }

    constructor (max: nat, client: Client)
      ensures this.max == max && this.client == client && Now() == State(START, 0, false)
    {
      this.max, this.client := max, client;
      received, rejected, view := 0, false, START;
    }

    method Send(message: Outgoing)
      modifies this`view
      ensures view == old(view).(wire := old(view).wire + [message])
    {
      view := view.(wire := view.wire + [message]);
    }

    method Give(message: Incoming)
      modifies this`view
      ensures view == old(view).(given := old(view).given + [message])
    {
      view := view.(given := view.given + [message]);
    }

    method Reject()
      modifies this`view
      ensures view == old(view).(wire := old(view).wire + REFUSAL)
    {
      Send(RefusalStart);
      Send(RefusalBody);
    }

    /** `limited_receive` up to its await. */
    method BeginReceive()
      modifies this`view
      ensures Now() == GuardedStep(max, client, old(Now()), Begin)
    {
      if rejected {
        Give(Disconnect);
        return;
      }
      view := view.(waiting := view.waiting + 1);
    }

    /** `limited_receive` from its await on, when a message is there for it. */
    method EndReceive()
      modifies this
      ensures Now() == GuardedStep(max, client, old(Now()), Arrives)
    {
      if view.waiting == 0 {
        return;
      }
      var message := client(view.taken);
      view := view.(waiting := view.waiting - 1, taken := view.taken + 1);
      if message.Request? {
        received := received + message.size;
        if received > max {
          rejected := true;
          Reject();
          Give(Disconnect);
          return;
        }
      }
      Give(message);
    }

    method GuardedSend(message: nat)
      modifies this`view
      ensures Now() == GuardedStep(max, client, old(Now()), Sends(message))
    {
      if !rejected {
        Send(FromApp(message));
      }
    }

    method App(actions: seq<Action>)
      requires Now() == State(START, 0, false)
      modifies this
      ensures Now() == Guarded(max, client, actions)
    {
      assert actions[..0] == [];
      for i := 0 to |actions|
        invariant Now() == Guarded(max, client, actions[..i])
      {
        assert actions[..i + 1][..i] == actions[..i];
        match actions[i]
        case Begin => BeginReceive();
        case Arrives => EndReceive();
        case Sends(message) => GuardedSend(message);
      }
      assert actions[..|actions|] == actions;
    }
  }

  // ---------------------------------------------------------------- what the limit keeps

  /** The body bytes of the client's first `n` messages. */
  function Bytes(client: Client, n: nat): nat {
    if n == 0 then 0 else Bytes(client, n - 1) + Size(client(n - 1))
  }

  function BodyOf(messages: seq<Incoming>): nat {
    if messages == [] then 0 else BodyOf(messages[..|messages| - 1]) + Size(messages[|messages| - 1])
  }

  function Prefix(client: Client, n: nat): (p: seq<Incoming>)
    ensures |p| == n
  {
    seq(n, (i: nat) => client(i))
  }

  lemma {:induction false} BytesGrow(client: Client, m: nat, n: nat)
    requires m <= n
    ensures Bytes(client, m) <= Bytes(client, n)
  {
    if m < n {
      BytesGrow(client, m, n - 1);
    }
  }

  lemma {:induction false} DirectIsPrefix(client: Client, actions: seq<Action>)
    ensures var v := Direct(client, actions); v.given == Prefix(client, v.taken)
  {
    if actions == [] {
    } else {
      DirectIsPrefix(client, actions[..|actions| - 1]);
    }
  }

  /**
   The middleware refuses exactly when the messages the application asks for hold more than `max`
   bytes; until then it cannot be told from its absence.
   */
  lemma {:induction false} InvisibleWithinLimit(max: nat, client: Client, actions: seq<Action>)
    ensures var s, v := Guarded(max, client, actions), Direct(client, actions);
            && (s.rejected <==> Bytes(client, v.taken) > max)
            && (!s.rejected ==> s.view == v && s.received == Bytes(client, v.taken))
  {
    if actions == [] {
    } else {
      var before := actions[..|actions| - 1];
      InvisibleWithinLimit(max, client, before);
      BytesGrow(client, Direct(client, before).taken, Direct(client, actions).taken);
    }
  }

  /** What the application got: the first `n` messages, then nothing of the body. */
  ghost predicate GotPrefix(max: nat, client: Client, given: seq<Incoming>, n: nat) {
    && n <= |given| && Bytes(client, n) <= max
    && given[..n] == Prefix(client, n)
    && forall i :: n <= i < |given| ==> !given[i].Request?
  }

  /** Where the refusal came: the messages before it are the client's, in order, and fit the limit. */
  lemma {:induction false} AppGetsAPrefix(max: nat, client: Client, actions: seq<Action>) returns (n: nat)
    ensures var s := Guarded(max, client, actions);
            && GotPrefix(max, client, s.view.given, n)
            && (!s.rejected ==> n == |s.view.given|)
            && (s.rejected ==> s.received > max)
  {
    if actions == [] {
      n := 0;
    } else {
      var before := actions[..|actions| - 1];
      n := AppGetsAPrefix(max, client, before);
      var s, t := Guarded(max, client, before), Guarded(max, client, actions);
      InvisibleWithinLimit(max, client, before);
      InvisibleWithinLimit(max, client, actions);
      if !t.rejected {
        DirectIsPrefix(client, actions);
        n := |t.view.given|;
      } else {
        assert t.view.given[..n] == s.view.given[..n];
      }
    }
  }

  lemma {:induction false} PrefixBody(client: Client, given: seq<Incoming>, n: nat)
    requires n <= |given| && given[..n] == Prefix(client, n)
    requires forall i :: n <= i < |given| ==> !given[i].Request?
    ensures BodyOf(given) == Bytes(client, n)
    decreases |given|
  {
    if given == [] {
    } else {
      var front := given[..|given| - 1];
      if n < |given| {
        assert front[..n] == given[..n];
        PrefixBody(client, front, n);
      } else {
        assert given == given[..n];
        assert front == Prefix(client, n - 1);
        assert front[..n - 1] == front;
        PrefixBody(client, front, n - 1);
      }
    }
  }

  /** The application never receives more than `max` bytes of body. */
  lemma BodyIsLimited(max: nat, client: Client, actions: seq<Action>)
    ensures BodyOf(Guarded(max, client, actions).view.given) <= max
  {
    var n := AppGetsAPrefix(max, client, actions);
    PrefixBody(client, Guarded(max, client, actions).view.given, n);
  }

  // ---------------------------------------------------------------- what goes out

  function Refusals(count: nat): seq<Outgoing> {
    if count == 0 then [] else Refusals(count - 1) + REFUSAL
  }

  ghost predicate AllFromApp(wire: seq<Outgoing>) {
    forall i :: 0 <= i < |wire| ==> wire[i].FromApp?
  }

  /**
   Nothing of the application goes out after a refusal, a refusal is sent whenever the limit was passed,
   and there are no more refusals than `receive` calls that were awaited at once.
   */
  lemma {:induction false} RefusalIsLast(max: nat, client: Client, actions: seq<Action>)
      returns (passed: seq<Outgoing>, count: nat)
    ensures var s := Guarded(max, client, actions);
            && s.view.wire == passed + Refusals(count) && AllFromApp(passed)
            && (s.rejected <==> count >= 1)
            && (s.rejected ==> count + s.view.waiting <= Peak(client, actions))
  {
    if actions == [] {
      passed, count := [], 0;
    } else {
      var before := actions[..|actions| - 1];
      passed, count := RefusalIsLast(max, client, before);
      InvisibleWithinLimit(max, client, before);
      PeakCovers(client, before);
      var s, t := Guarded(max, client, before), Guarded(max, client, actions);
      if t.view.wire == s.view.wire + REFUSAL {
        OneMore(passed, count);
        count := count + 1;
      } else if !t.rejected {
        passed := t.view.wire;
      }
    }
  }

  lemma OneMore(passed: seq<Outgoing>, count: nat)
    ensures passed + Refusals(count) + REFUSAL == passed + Refusals(count + 1)
  {
    assert passed + Refusals(count) + REFUSAL == passed + (Refusals(count) + REFUSAL);
  }

  lemma PeakCovers(client: Client, actions: seq<Action>)
    ensures Direct(client, actions).waiting <= Peak(client, actions)
  {
  }

  /** An application that awaits one `receive` at a time is refused once, and then told only that the client left. */
  lemma OneRefusal(max: nat, client: Client, actions: seq<Action>)
      returns (passed: seq<Outgoing>, n: nat)
    requires Peak(client, actions) <= 1
    ensures var s := Guarded(max, client, actions);
            && AllFromApp(passed) && s.view.wire == passed + (if s.rejected then REFUSAL else [])
            && GotPrefix(max, client, s.view.given, n)
            && forall i :: n <= i < |s.view.given| ==> s.view.given[i] == Disconnect
  {
    var s := Guarded(max, client, actions);
    var count;
    passed, count := RefusalIsLast(max, client, actions);
    assert Refusals(0) == [] && Refusals(1) == REFUSAL;
    n := OnlyDisconnects(max, client, actions);
  }

  lemma {:induction false} OnlyDisconnects(max: nat, client: Client, actions: seq<Action>) returns (n: nat)
    requires Peak(client, actions) <= 1
    ensures var s := Guarded(max, client, actions);
            && GotPrefix(max, client, s.view.given, n)
            && (!s.rejected ==> n == |s.view.given|)
            && forall i :: n <= i < |s.view.given| ==> s.view.given[i] == Disconnect
  {
    var s := Guarded(max, client, actions);
    if !s.rejected {
      n := AppGetsAPrefix(max, client, actions);
    } else {
      assert actions != [];
      var before := actions[..|actions| - 1];
      n := OnlyDisconnects(max, client, before);
      var r := Guarded(max, client, before);
      var passed, count := RefusalIsLast(max, client, before);
      assert s.view.given[..n] == r.view.given[..n];
    }
  }

  lemma Append(max: nat, client: Client, actions: seq<Action>, action: Action)
    ensures var more := actions + [action];
            && Direct(client, more) == DirectStep(client, Direct(client, actions), action)
            && Guarded(max, client, more) == GuardedStep(max, client, Guarded(max, client, actions), action)
            && Peak(client, more) == Max(Peak(client, actions), Direct(client, more).waiting)
  {
    assert (actions + [action])[..|actions|] == actions;
  }

  /** Two `receive` calls awaited at once can both send the refusal. */
  lemma TwoRefusals(max: nat)
      returns (client: Client, actions: seq<Action>)
    ensures Peak(client, actions) == 2
    ensures Guarded(max, client, actions).view.wire == REFUSAL + REFUSAL
  {
    client := i => Request(max + 1);
    actions := [Begin, Begin, Arrives, Arrives];
    Append(max, client, [], Begin);
    Append(max, client, [Begin], Begin);
    assert [Begin] + [Begin] == [Begin, Begin];
    assert Guarded(max, client, [Begin, Begin]) == State(START.(waiting := 2), 0, false);
    Append(max, client, [Begin, Begin], Arrives);
    assert [Begin, Begin] + [Arrives] == [Begin, Begin, Arrives];
    assert Guarded(max, client, [Begin, Begin, Arrives]) == State(View(1, 1, [Disconnect], REFUSAL), max + 1, true);
    Append(max, client, [Begin, Begin, Arrives], Arrives);
    assert actions == [Begin, Begin, Arrives] + [Arrives];
  }

  // ---------------------------------------------------------------- when one refusal is all

  function Arrivals(k: nat): seq<Action> {
    if k == 0 then [] else Arrivals(k - 1) + [Arrives]
  }

  function RefusalsSent(wire: seq<Outgoing>): nat {
    if wire == [] then 0
    else RefusalsSent(wire[..|wire| - 1]) + (if wire[|wire| - 1].RefusalStart? then 1 else 0)
  }

  /** At any point of the actions, whatever the client sends and however many of its messages arrive then. */
  ghost predicate RefusesOnce(max: nat, actions: seq<Action>) {
    forall client: Client, n: nat, k: nat :: n <= |actions| ==>
      RefusalsSent(Guarded(max, client, actions[..n] + Arrivals(k)).view.wire) <= 1
  }

  /** The refusal is sent at most once if and only if the application never awaits two `receive` calls at once. */
  lemma RefusesOnceWhen(max: nat, client: Client, actions: seq<Action>)
    ensures RefusesOnce(max, actions) <==> Peak(client, actions) <= 1
  {
    if Peak(client, actions) <= 1 {
      forall other: Client, n: nat, k: nat | n <= |actions|
        ensures RefusalsSent(Guarded(max, other, actions[..n] + Arrivals(k)).view.wire) <= 1
      {
        PeakOfPrefix(client, actions, n);
        PeakOfArrivals(client, actions[..n], k);
        ClientsDoNotMatter(client, other, actions[..n] + Arrivals(k));
        AtMostOneSent(max, other, actions[..n] + Arrivals(k));
      }
    } else {
      var n := PeakReached(client, actions);
      var other := TwoTooLarge(max, client, actions[..n]);
      assert RefusalsSent(Guarded(max, other, actions[..n] + Arrivals(2)).view.wire) >= 2;
    }
  }

  lemma {:induction false} ClientsDoNotMatter(a: Client, b: Client, actions: seq<Action>)
    ensures Direct(a, actions).waiting == Direct(b, actions).waiting
    ensures Direct(a, actions).taken == Direct(b, actions).taken
    ensures Peak(a, actions) == Peak(b, actions)
  {
    if actions == [] {
    } else {
      ClientsDoNotMatter(a, b, actions[..|actions| - 1]);
    }
  }

  lemma {:induction false} PeakOfPrefix(client: Client, actions: seq<Action>, n: nat)
    requires n <= |actions|
    ensures Peak(client, actions[..n]) <= Peak(client, actions)
  {
    if n == |actions| {
      assert actions[..n] == actions;
    } else {
      PeakOfPrefix(client, actions[..|actions| - 1], n);
      assert actions[..|actions| - 1][..n] == actions[..n];
    }
  }

  lemma {:induction false} PeakOfArrivals(client: Client, actions: seq<Action>, k: nat)
    ensures Peak(client, actions + Arrivals(k)) == Peak(client, actions)
  {
    if k == 0 {
      assert actions + Arrivals(0) == actions;
    } else {
      var before := actions + Arrivals(k - 1);
      PeakOfArrivals(client, actions, k - 1);
      PeakOfOneArrival(client, before);
      LastArrival(actions, k);
    }
  }

  lemma LastArrival(actions: seq<Action>, k: nat)
    requires k > 0
    ensures actions + Arrivals(k) == actions + Arrivals(k - 1) + [Arrives]
  {
  }

  lemma PeakOfOneArrival(client: Client, actions: seq<Action>)
    ensures Peak(client, actions + [Arrives]) == Peak(client, actions)
  {
    Append(0, client, actions, Arrives);
    PeakCovers(client, actions);
  }

  /** The point where the most calls are awaited. */
  lemma {:induction false} PeakReached(client: Client, actions: seq<Action>) returns (n: nat)
    ensures n <= |actions| && Direct(client, actions[..n]).waiting == Peak(client, actions)
  {
    if actions == [] {
      n := 0;
    } else if Peak(client, actions) == Direct(client, actions).waiting {
      n := |actions|;
      assert actions[..n] == actions;
    } else {
      n := PeakReached(client, actions[..|actions| - 1]);
      assert actions[..|actions| - 1][..n] == actions[..n];
    }
  }

  lemma AtMostOneSent(max: nat, client: Client, actions: seq<Action>)
    requires Peak(client, actions) <= 1
    ensures RefusalsSent(Guarded(max, client, actions).view.wire) <= 1
  {
    var passed, n := OneRefusal(max, client, actions);
    NoneFromApp(passed);
    if Guarded(max, client, actions).rejected {
      OneMoreSent(passed);
    } else {
      assert passed + [] == passed;
    }
  }

  lemma {:induction false} NoneFromApp(wire: seq<Outgoing>)
    requires AllFromApp(wire)
    ensures RefusalsSent(wire) == 0
  {
    if wire == [] {
    } else {
      NoneFromApp(wire[..|wire| - 1]);
    }
  }

  lemma OneMoreSent(wire: seq<Outgoing>)
    ensures RefusalsSent(wire + REFUSAL) == RefusalsSent(wire) + 1
  {
    var begun := wire + [RefusalStart];
    assert wire + REFUSAL == begun + [RefusalBody];
    assert begun[..|wire|] == wire && (begun + [RefusalBody])[..|begun|] == begun;
  }

  /** A client that sends no body until two calls are awaited, and then two pieces that are each too large. */
  lemma TwoTooLarge(max: nat, client: Client, actions: seq<Action>) returns (other: Client)
    requires Direct(client, actions).waiting >= 2
    ensures RefusalsSent(Guarded(max, other, actions + Arrivals(2)).view.wire) >= 2
  {
    var taken := Direct(client, actions).taken;
    other := i => if i < taken then Disconnect else Request(max + 1);
    ClientsDoNotMatter(client, other, actions);
    NoBody(other, taken);
    InvisibleWithinLimit(max, other, actions);
    var wire := Guarded(max, other, actions).view.wire;
    TwoArrive(max, other, actions);
    OneMoreSent(wire);
    OneMoreSent(wire + REFUSAL);
  }

  lemma {:induction false} NoBody(client: Client, n: nat)
    requires forall i: nat :: i < n ==> client(i) == Disconnect
    ensures Bytes(client, n) == 0
  {
    if n == 0 {
    } else {
      NoBody(client, n - 1);
    }
  }

  lemma TwoArrive(max: nat, client: Client, actions: seq<Action>)
    requires var s := Guarded(max, client, actions);
             && !s.rejected && s.view.waiting >= 2
             && client(s.view.taken) == client(s.view.taken + 1) == Request(max + 1)
    ensures Guarded(max, client, actions + Arrivals(2)).view.wire ==
            Guarded(max, client, actions).view.wire + REFUSAL + REFUSAL
  {
    Append(max, client, actions, Arrives);
    Append(max, client, actions + [Arrives], Arrives);
    assert Arrivals(1) == [Arrives] && Arrivals(2) == [Arrives] + [Arrives];
    assert actions + Arrivals(2) == actions + [Arrives] + [Arrives];
  }

  // ---------------------------------------------------------------- the declared size

  datatype Verdict = Pass | Refuse | Crash

  /** The longest text Python's `int()` reads. */
  const LONGEST_INT: nat := 4300

  /** `str.isdigit` on the characters of a header: three superscripts are digits to it, not to `int()`. */
  predicate IsDigit(c: char) {
    '0' <= c <= '9' || c == '\U{B2}' || c == '\U{B3}' || c == '\U{B9}'
  }

  /** The test of the `content-length` header. */
  function Declared(max: nat, header: Option<string>): Verdict {
    if header.None? || header.value == "" || exists i :: 0 <= i < |header.value| && !IsDigit(header.value[i]) then Pass
    else if !IsNumeral(header.value) || |header.value| > LONGEST_INT then Crash
    else if Numeral(header.value) > max then Refuse
    else Pass
  }

  /** A declared size is refused exactly when it is a number, with any leading zeros, that is larger than the limit. */
  lemma DeclaredRefuses(max: nat, header: Option<string>)
    ensures Declared(max, header) == Refuse <==>
            exists zeros: nat, n: nat ::
              n > max && header == Some(Zeros(zeros) + Decimal(n)) && |Zeros(zeros) + Decimal(n)| <= LONGEST_INT
  {
    if Declared(max, header) == Refuse {
      var zeros := NumeralIsPadded(header.value);
      assert header == Some(Zeros(zeros) + Decimal(Numeral(header.value)));
    }
    forall zeros: nat, n: nat |
      n > max && header == Some(Zeros(zeros) + Decimal(n)) && |Zeros(zeros) + Decimal(n)| <= LONGEST_INT
      ensures Declared(max, header) == Refuse
    {
      PaddedIsRead(zeros, n);
      assert IsNumeral(header.value);
    }
  }

  /** Both ways to a `ValueError`: a superscript digit, and a numeral that is too long. */
  lemma DeclaredCrashes(max: nat)
    ensures Declared(max, Some("\U{B2}")) == Crash
    ensures forall text :: IsNumeral(text) && |text| > LONGEST_INT ==> Declared(max, Some(text)) == Crash
  {
    var text := "\U{B2}";
    assert IsDigit(text[0]) && !('0' <= text[0] <= '9');
  }

  // ---------------------------------------------------------------- one request

  /**
   `__call__`. `limited` says whether this is a multipart request over HTTP; `actions` and `ending` are
   what the application does.
   */
  method Call(limited: bool, max: nat, header: Option<string>, client: Client, actions: seq<Action>, ending: Ending)
      returns (outcome: Outcome, view: View)
    ensures !limited ==> view == Direct(client, actions) && outcome == Ended(ending)
    ensures limited && Declared(max, header) == Crash ==> view == START && outcome == ValueError
    ensures limited && Declared(max, header) == Refuse ==>
              view == START.(wire := REFUSAL) && outcome == Ended(Returns)
    ensures limited && Declared(max, header) == Pass ==>
              var over := Bytes(client, Direct(client, actions).taken) > max;
              && view == Guarded(max, client, actions).view
              && (!over ==> view == Direct(client, actions))
              && outcome == Ended(if over && ending == RaisesClientDisconnect then Returns else ending)
  {
    if !limited {
      return Ended(ending), Direct(client, actions);
    }
    var session := new Session(max, client);
    var declared := Declared(max, header);
    if declared == Crash {
      return ValueError, session.view;
    }
    if declared == Refuse {
      session.Reject();
      return Ended(Returns), session.view;
    }
    session.App(actions);
    InvisibleWithinLimit(max, client, actions);
    view := session.view;
    if ending == RaisesClientDisconnect && session.rejected {
      outcome := Ended(Returns);
    } else {
      outcome := Ended(ending);
    }
  }

  /** The application sends something before it has asked for more than `max` bytes. */
  ghost predicate SendsWithin(max: nat, client: Client, actions: seq<Action>) {
    exists i :: 0 <= i < |actions| && SendsWithinAt(max, client, actions, i)
  }

  predicate SendsWithinAt(max: nat, client: Client, actions: seq<Action>, i: nat)
    requires i < |actions|
  {
    actions[i].Sends? && Bytes(client, Direct(client, actions[..i]).taken) <= max
  }

  /**
   The refusal follows a response that has already begun exactly when the application sends within the limit and then
   exceeds it.
   */
  lemma RefusalFollowsAnswerWhen(max: nat, client: Client, actions: seq<Action>)
    ensures var s := Guarded(max, client, actions);
            s.rejected && s.view.wire != [] && s.view.wire[0].FromApp? <==>
            Bytes(client, Direct(client, actions).taken) > max && SendsWithin(max, client, actions)
  {
    InvisibleWithinLimit(max, client, actions);
    WireBeginsWithAnswer(max, client, actions);
  }

  lemma {:induction false} WireBeginsWithAnswer(max: nat, client: Client, actions: seq<Action>)
    ensures var wire := Guarded(max, client, actions).view.wire;
            wire != [] && wire[0].FromApp? <==> SendsWithin(max, client, actions)
    ensures var s := Guarded(max, client, actions);
            if s.rejected then s.view.wire != [] else s.view.wire == [] || s.view.wire[0].FromApp?
  {
    if actions == [] {
    } else {
      var n := |actions| - 1;
      WireBeginsWithAnswer(max, client, actions[..n]);
      InvisibleWithinLimit(max, client, actions[..n]);
      SendsWithinSplit(max, client, actions);
    }
  }

  lemma SendsWithinSplit(max: nat, client: Client, actions: seq<Action>)
    requires actions != []
    ensures SendsWithin(max, client, actions) <==>
            || SendsWithin(max, client, actions[..|actions| - 1])
            || SendsWithinAt(max, client, actions, |actions| - 1)
  {
    var before := actions[..|actions| - 1];
    assert forall i :: 0 <= i < |before| ==> before[..i] == actions[..i];
    assert forall i :: 0 <= i < |before| ==>
        (SendsWithinAt(max, client, before, i) <==> SendsWithinAt(max, client, actions, i));
  }

  /** Such an application: it sends, and then asks for a piece that is too large. */
  lemma RefusalMayFollowAnswer(max: nat, message: nat)
      returns (client: Client, actions: seq<Action>)
    ensures Peak(client, actions) <= 1
    ensures Guarded(max, client, actions).view.wire == [FromApp(message)] + REFUSAL
  {
    client := i => Request(max + 1);
    SentAndAsking(max, client, message);
    Append(max, client, [Sends(message), Begin], Arrives);
    actions := [Sends(message), Begin] + [Arrives];
  }

  lemma Sent(max: nat, client: Client, message: nat)
    ensures var sent := START.(wire := [FromApp(message)]);
            && Guarded(max, client, [Sends(message)]) == State(sent, 0, false)
            && Direct(client, [Sends(message)]) == sent && Peak(client, [Sends(message)]) == 0
  {
    Append(max, client, [], Sends(message));
    assert [] + [Sends(message)] == [Sends(message)];
  }

  lemma SentAndAsking(max: nat, client: Client, message: nat)
    ensures var asking := View(1, 0, [], [FromApp(message)]);
            var actions := [Sends(message), Begin];
            && Guarded(max, client, actions) == State(asking, 0, false)
            && Direct(client, actions) == asking && Peak(client, actions) == 1
  {
    Sent(max, client, message);
    Append(max, client, [Sends(message)], Begin);
    assert [Sends(message)] + [Begin] == [Sends(message), Begin];
  }
}
