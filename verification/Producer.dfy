/** Publishing an event: the retry loop of `EventProducer.emit`, and `emit_safe` around it. */
module Producer {
  import opened Common
  import opened HandlerTask

  /** `UnboundMessageId`: no attempt was made at all, and the code reads a variable that was never set. */
  datatype Emitted = Published | Raised | UnboundMessageId | NotSerializable

  /** Where a command goes: to Redis, or into a pipeline that somebody executes later. */
  datatype Target = Stream | Pipeline

  /** The first attempt in `from..attempts` that Redis confirmed, or `attempts + 1`. */
  function FirstDone(replies: nat -> Reply, from: nat, attempts: nat): (k: nat)
    requires from <= attempts + 1
    ensures from <= k <= attempts + 1
    ensures k <= attempts ==> replies(k).Done?
    ensures forall j :: from <= j < k ==> !replies(j).Done?
    decreases attempts + 1 - from
  {
    if from == attempts + 1 || replies(from).Done? then from else FirstDone(replies, from + 1, attempts)
  }

  /** How many of the attempts 1..k reached Redis, whatever the caller was told. */
  function Applications(replies: nat -> Reply, k: nat): nat {
    if k == 0 then 0 else Applications(replies, k - 1) + (if Applied(replies(k)) then 1 else 0)
  }

  function Copies<T>(entry: T, n: nat): seq<T> {
    seq(n, _ => entry)
  }

  lemma {:induction false} CopiesJoin<T>(before: seq<T>, entry: T, m: nat, n: nat)
    ensures before + Copies(entry, m) + Copies(entry, n) == before + Copies(entry, m + n)
  {
    if n == 0 {
    } else {
      CopiesJoin(before, entry, m, n - 1);
      assert before + Copies(entry, m) + Copies(entry, n) == before + Copies(entry, m) + Copies(entry, n - 1) + [entry];
    }
  }

  /** The last attempt that an emit makes. */
  function LastAttempt(replies: nat -> Reply, attempts: nat): nat {
    var k := FirstDone(replies, 1, attempts);
    if k <= attempts then k else attempts
  }

  /** The sleeps after the first `k` failures. */
  function SleptAfter(retryDelay: real, k: nat): real {
    if k == 0 then 0.0 else SleptAfter(retryDelay, k - 1) + retryDelay * (Pow2(k - 1) as real)
  }

  class EventProducer<Entry(!new)> {
    const defaultRetries: int
    var stream: seq<Entry>
    var pipeline: seq<Entry>

    constructor (defaultRetries: int)
      ensures this.defaultRetries == defaultRetries && stream == [] && pipeline == []
    {
      this.defaultRetries := defaultRetries;
      stream, pipeline := [], [];
    }

    /** One XADD: the entry is there when Redis applied the command, also when the reply was lost. */
    method XAdd(target: Target, entry: Entry, reply: Reply)
      modifies this
      ensures stream == old(stream) + Copies(entry, if target.Stream? && Applied(reply) then 1 else 0)
      ensures pipeline == old(pipeline) + Copies(entry, if target.Pipeline? && Applied(reply) then 1 else 0)
    {
      if Applied(reply) {
        match target {
          case Stream => stream := stream + [entry];
          case Pipeline => pipeline := pipeline + [entry];
        }
      }
    }

    /**
     `emit`. It tries until Redis confirms, at most `retries + 1` times, once for a pipeline, and sleeps
     twice as long after every failure. What it leaves behind is one copy per attempt that was applied.
     */
    method Emit(entry: Entry, serializable: bool, target: Target, retries: Option<int>, retryDelay: real,
                replies: nat -> Reply)
      returns (result: Emitted, tried: nat, slept: real)
      modifies this
      ensures var wanted := if retries.Some? then retries.value else defaultRetries;
              var attempts := (if target.Pipeline? then 0 else wanted) + 1;
              if !serializable then result.NotSerializable? && tried == 0 && slept == 0.0
              else if attempts <= 0 then result.UnboundMessageId? && tried == 0 && slept == 0.0
              else
                && tried == LastAttempt(replies, attempts)
                && (result == if FirstDone(replies, 1, attempts) <= attempts then Published else Raised)
                && slept == SleptAfter(retryDelay, tried - 1)
      ensures stream == old(stream) + Copies(entry, if target.Stream? then Applications(replies, tried) else 0)
      ensures pipeline == old(pipeline) + Copies(entry, if target.Pipeline? then Applications(replies, tried) else 0)
    {
      if !serializable {
        return NotSerializable, 0, 0.0;
      }
      var wanted := if retries.Some? then retries.value else defaultRetries;
      var attempts := (if target.Stream? then wanted else 0) + 1;
      if attempts < 1 {
        return UnboundMessageId, 0, 0.0;
      }
      result, tried, slept := Publish(entry, target, attempts, retryDelay, replies);
    }

    /** The loop of attempts. */
    method Publish(entry: Entry, target: Target, attempts: nat, retryDelay: real, replies: nat -> Reply)
      returns (result: Emitted, tried: nat, slept: real)
      requires attempts >= 1
      modifies this
      ensures tried == LastAttempt(replies, attempts) && slept == SleptAfter(retryDelay, tried - 1)
      ensures result == if FirstDone(replies, 1, attempts) <= attempts then Published else Raised
      ensures stream == old(stream) + Copies(entry, if target.Stream? then Applications(replies, tried) else 0)
      ensures pipeline == old(pipeline) + Copies(entry, if target.Pipeline? then Applications(replies, tried) else 0)
    {
      var attempt := 1;
      tried, slept := 0, 0.0;
      while true
        invariant 1 <= attempt <= attempts && tried == attempt - 1
        invariant slept == SleptAfter(retryDelay, attempt - 1)
        invariant FirstDone(replies, 1, attempts) == FirstDone(replies, attempt, attempts)
        invariant stream == old(stream) + Copies(entry, if target.Stream? then Applications(replies, tried) else 0)
        invariant pipeline ==
                  old(pipeline) + Copies(entry, if target.Pipeline? then Applications(replies, tried) else 0)
        decreases attempts - attempt
      {
        var reply := replies(attempt);
        ghost var applied := if Applied(reply) then 1 else 0;
        CopiesJoin(old(stream), entry, if target.Stream? then Applications(replies, tried) else 0,
                   if target.Stream? then applied else 0);
        CopiesJoin(old(pipeline), entry, if target.Pipeline? then Applications(replies, tried) else 0,
                   if target.Pipeline? then applied else 0);
        XAdd(target, entry, reply);
        tried := attempt;
        if reply.Done? {
          return Published, tried, slept;
        }
        if attempt == attempts {
          return Raised, tried, slept;
        }
        slept := slept + retryDelay * (Pow2(attempt - 1) as real);
        attempt := attempt + 1;
      }
    }

    /** `emit_safe`: every exception of `emit` becomes a result that is not there. */
    method EmitSafe(entry: Entry, serializable: bool, retries: int, retryDelay: real, replies: nat -> Reply)
      returns (published: bool)
      modifies this
      ensures published <==> serializable && retries >= 0 && FirstDone(replies, 1, retries + 1) <= retries + 1
      ensures pipeline == old(pipeline)
      ensures stream ==
              old(stream) + Copies(entry, if serializable && retries >= 0
                                          then Applications(replies, LastAttempt(replies, retries + 1)) else 0)
    {
      var result, tried, slept := Emit(entry, serializable, Stream, Some(retries), retryDelay, replies);
      published := result.Published?;
    }
  }

  /** The doubling waits in closed form: k retries sleep for retry_delay * (2^k - 1). */
  lemma {:induction false} TotalSleep(retryDelay: real, k: nat)
    ensures Pow2(k) >= 1
    ensures SleptAfter(retryDelay, k) == retryDelay * ((Pow2(k) - 1) as real)
  {
    if k == 0 {
    } else {
      TotalSleep(retryDelay, k - 1);
      var p := Pow2(k - 1) as real;
      assert (Pow2(k) - 1) as real == (p - 1.0) + p;
      assert retryDelay * ((p - 1.0) + p) == retryDelay * (p - 1.0) + retryDelay * p;
    }
  }

  lemma {:induction false} AtMostOnePerAttempt(replies: nat -> Reply, k: nat)
    ensures Applications(replies, k) <= k
  {
    if k == 0 {
    } else {
      AtMostOnePerAttempt(replies, k - 1);
    }
  }

  lemma {:induction false} NoneApplied(replies: nat -> Reply, k: nat)
    ensures Applications(replies, k) == 0 <==> forall j :: 1 <= j <= k ==> !Applied(replies(j))
  {
    if k == 0 {
    } else {
      NoneApplied(replies, k - 1);
    }
  }

  /**
   Emit conservation. An emit that returns has left between one copy and one per attempt, exactly one if
   and only if no failed attempt had reached Redis; one that raises has made every attempt and left
   between none and one per attempt.
   */
  lemma EmitConserves(replies: nat -> Reply, retries: nat)
    ensures var attempts := retries + 1;
            var tried := LastAttempt(replies, attempts);
            var copies := Applications(replies, tried);
            && 1 <= tried <= attempts
            && (FirstDone(replies, 1, attempts) <= attempts ==>
                  && 1 <= copies <= tried
                  && (copies == 1 <==> forall j :: 1 <= j < tried ==> !Applied(replies(j))))
            && (FirstDone(replies, 1, attempts) > attempts ==> tried == attempts && copies <= attempts)
  {
    var tried := LastAttempt(replies, retries + 1);
    AtMostOnePerAttempt(replies, tried);
    NoneApplied(replies, tried - 1);
  }
}
