/**
 One pass of `_reclaim_pending` over the pending list, with no other consumer acting: XAUTOCLAIM with its
 cursor, `_handle_reclaimed`, and the loop around them.

 XAUTOCLAIM is that of Redis 6.2, which hands out a pending entry that was trimmed from the stream, without fields:
 the case that `_handle_reclaimed` provides for. (Redis 7 drops such an entry from the pending list instead, so there
 it is never claimed.)
 */
module ReclaimScan {
  import opened Common

  /** A row of the pending list. Entry ids are positive; 0 stands for the cursor `0-0`. */
  datatype Row = Row(id: nat, count: nat, deliveredAt: int)

  /** The pending list is ordered by entry id. */
  ghost predicate Ascending(rows: seq<Row>) {
    && (forall i :: 0 <= i < |rows| ==> rows[i].id > 0)
    && (forall i, j :: 0 <= i < j < |rows| ==> rows[i].id < rows[j].id)
  }

  predicate Increasing(ids: seq<nat>) {
    forall i, j :: 0 <= i < j < |ids| ==> ids[i] < ids[j]
  }

  /** What `_handle_reclaimed` does with one claimed entry; `count` is what `_delivery_count` could read. */
  datatype Decision =
    | AckGone(id: nat)
    | DeadLetter(id: nat, deliveries: nat)
    | Handle(id: nat, count: Option<nat>)

  datatype Result = Ok(reclaimed: nat) | Raised

  predicate Idle(row: Row, now: int, minIdle: int) {
    now - row.deliveredAt >= minIdle
  }

  /** The ids that a look at `rows` claims, in order. */
  function IdleIds(rows: seq<Row>, now: int, minIdle: int): seq<nat> {
    if rows == [] then []
    else
      var last := rows[|rows| - 1];
      IdleIds(rows[..|rows| - 1], now, minIdle) + (if Idle(last, now, minIdle) then [last.id] else [])
  }

  /** `rows` after that look: a claimed row has one delivery more, and is not idle any longer. */
  function Claimed(rows: seq<Row>, now: int, minIdle: int): (after: seq<Row>)
    ensures |after| == |rows|
    ensures forall i :: 0 <= i < |rows| ==>
              after[i] == if Idle(rows[i], now, minIdle) then Row(rows[i].id, rows[i].count + 1, now) else rows[i]
  {
    if rows == [] then []
    else
      var last := rows[|rows| - 1];
      Claimed(rows[..|rows| - 1], now, minIdle) +
      [if Idle(last, now, minIdle) then Row(last.id, last.count + 1, now) else last]
  }

  /** `before` while a scan that began at `from` stands at `i`. */
  function Scanned(before: seq<Row>, from: nat, i: nat, now: int, minIdle: int): (rows: seq<Row>)
    requires from <= i <= |before|
    ensures |rows| == |before|
    ensures forall j :: 0 <= j < |rows| ==>
              rows[j] == if from <= j < i && Idle(before[j], now, minIdle)
                         then Row(before[j].id, before[j].count + 1, now) else before[j]
  {
    before[..from] + Claimed(before[from..i], now, minIdle) + before[i..]
  }

  lemma LookAtOne(before: seq<Row>, from: nat, i: nat, now: int, minIdle: int)
    requires from <= i < |before|
    ensures var idle := Idle(before[i], now, minIdle);
            var rows := Scanned(before, from, i, now, minIdle);
            && rows[i] == before[i]
            && IdleIds(before[from..i + 1], now, minIdle) ==
               IdleIds(before[from..i], now, minIdle) + (if idle then [before[i].id] else [])
            && Scanned(before, from, i + 1, now, minIdle) ==
               if idle then rows[i := Row(rows[i].id, rows[i].count + 1, now)] else rows
  {
    assert before[from..i + 1][..i - from] == before[from..i];
  }

  lemma {:induction false} IdleIdsAreIdle(rows: seq<Row>, now: int, minIdle: int)
    requires Ascending(rows)
    ensures Increasing(IdleIds(rows, now, minIdle))
    ensures forall id :: id in IdleIds(rows, now, minIdle) <==>
                         exists r :: r in rows && r.id == id && Idle(r, now, minIdle)
  {
    if rows == [] {
    } else {
      var shorter := rows[..|rows| - 1];
      var last := rows[|rows| - 1];
      IdleIdsAreIdle(shorter, now, minIdle);
      assert rows == shorter + [last];
      assert forall r :: r in rows <==> r in shorter || r == last;
      IncreasingMore(IdleIds(shorter, now, minIdle), last.id);
    }
  }

  lemma IncreasingMore(ids: seq<nat>, id: nat)
    requires Increasing(ids) && forall other :: other in ids ==> other < id
    ensures Increasing(ids + [id])
  {
    assert forall i :: 0 <= i < |ids| ==> ids[i] in ids;
  }

  lemma ScannedAscending(before: seq<Row>, from: nat, i: nat, now: int, minIdle: int)
    requires from <= i <= |before| && Ascending(before)
    ensures Ascending(Scanned(before, from, i, now, minIdle))
  {
    var rows := Scanned(before, from, i, now, minIdle);
    assert forall j :: 0 <= j < |rows| ==> rows[j].id == before[j].id;
  }

  /** `after` is what is left of `rows` when exactly the rows of `ids` are removed. */
  ghost predicate Without(rows: seq<Row>, after: seq<Row>, ids: set<nat>) {
    forall r :: r in after <==> r in rows && r.id !in ids
  }

  function Remove(rows: seq<Row>, id: nat): (after: seq<Row>)
    requires Ascending(rows)
    ensures Ascending(after)
    ensures forall r :: r in after <==> r in rows && r.id != id
  {
    if rows == [] then []
    else
      var rest := Remove(rows[1..], id);
      if rows[0].id == id then rest else [rows[0]] + rest
  }

  class Group {
    var rows: seq<Row>
    var stream: set<nat>   // entries that have not been trimmed
    var now: int

    ghost predicate Valid()
      reads this
    {
      Ascending(rows)
    }

    constructor (rows: seq<Row>, stream: set<nat>, now: int)
      requires Ascending(rows)
      ensures Valid() && this.rows == rows && this.stream == stream && this.now == now
    {
      this.rows := rows;
      this.stream := stream;
      this.now := now;
    }

    /**
     XAUTOCLAIM: looks at no more than 10 * count rows from `start` on, claims at most `count` of those that
     have been idle for `minIdle`, and answers with the id at which the next scan continues.
     */
    method XAutoClaim(minIdle: int, start: nat, count: nat)
      returns (next: nat, claimed: seq<nat>, from: nat, to: nat)
      requires Valid() && count > 0
      modifies this`rows
      ensures Valid()
      ensures from <= to <= |old(rows)| && (from < |old(rows)| ==> from < to)
      ensures forall i :: 0 <= i < |old(rows)| ==> (i < from <==> old(rows)[i].id < start)
      ensures next == (if to < |old(rows)| then old(rows)[to].id else 0)
      ensures claimed == IdleIds(old(rows)[from..to], now, minIdle) && |claimed| <= count
      ensures rows == Scanned(old(rows), from, to, now, minIdle)
    {
      ghost var before := rows;
      from := FirstFrom(start);
      to, claimed := Scan(minIdle, from, count);
      next := if to < |rows| then rows[to].id else 0;
      ScannedAscending(before, from, to, now, minIdle);
    }

    method Scan(minIdle: int, from: nat, count: nat) returns (i: nat, claimed: seq<nat>)
      requires from <= |rows| && count > 0
      modifies this`rows
      ensures from <= i <= |old(rows)| && (from < |old(rows)| ==> from < i)
      ensures claimed == IdleIds(old(rows)[from..i], now, minIdle) && |claimed| <= count
      ensures rows == Scanned(old(rows), from, i, now, minIdle)
    {
      ghost var before := rows;
      i := from;
      var attempts, left := 10 * count, count;
      claimed := [];
      assert before[from..i] == [] && rows == Scanned(before, from, i, now, minIdle);
      while attempts > 0 && left > 0 && i < |rows|
        invariant from <= i <= |before|
        invariant i == from ==> attempts > 0 && left > 0
        invariant left + |claimed| == count
        invariant claimed == IdleIds(before[from..i], now, minIdle)
        invariant rows == Scanned(before, from, i, now, minIdle)
        decreases |before| - i
      {
        LookAtOne(before, from, i, now, minIdle);
        if now - rows[i].deliveredAt >= minIdle {
          claimed := claimed + [rows[i].id];
          rows := rows[i := Row(rows[i].id, rows[i].count + 1, now)];
          left := left - 1;
        }
        attempts := attempts - 1;
        i := i + 1;
      }
    }

    /** Where a scan from `start` begins. */
    method FirstFrom(start: nat) returns (i: nat)
      requires Valid()
      ensures i <= |rows|
      ensures forall j :: 0 <= j < |rows| ==> (j < i <==> rows[j].id < start)
    {
      i := 0;
      while i < |rows| && rows[i].id < start
        invariant i <= |rows|
        invariant forall j :: 0 <= j < i ==> rows[j].id < start
      {
        i := i + 1;
      }
    }
  }

  /** What the environment does during one pass: by entry, or by the cursor of the scan. */
  datatype Answers = Answers(
    claims: nat -> bool,    // the XAUTOCLAIM from this cursor returns
    acks: nat -> bool,      // the XACK of this trimmed entry returns
    counts: nat -> bool,    // the count of this entry can be asked for
    handled: nat -> bool,   // the handler of this entry ACKs it
    takes: nat -> nat,      // how long the batch of the scan from this cursor takes
    stops: nat -> bool)     // `stop()` is called during that scan or the handling of its batch

  /** Redis answers the pass, and nobody stops it. */
  ghost predicate Calm(answers: Answers) {
    && (forall c :: answers.claims(c) && !answers.stops(c))
    && (forall id :: answers.acks(id))
  }

  /** The entry is ACKed at once because it was trimmed, and that fails. */
  predicate AckFails(answers: Answers, stream: set<nat>, id: nat) {
    id !in stream && !answers.acks(id)
  }

  /** What `_delivery_count` could read of the entry. */
  ghost predicate Counts(id: nat, count: Option<nat>, rows: seq<Row>, answers: Answers) {
    if count.Some? then answers.counts(id) && exists r :: r in rows && r.id == id && r.count == count.value
    else !answers.counts(id) || forall r :: r in rows ==> r.id != id
  }

  /** The decision that the code promises for a claimed entry, as its row and the stream are at that time. */
  ghost predicate Decided(decision: Decision, id: nat, rows: seq<Row>, stream: set<nat>, maxDeliveries: nat,
                          answers: Answers) {
    && decision.id == id
    && match decision
       case AckGone(_) => id !in stream
       case DeadLetter(_, deliveries) =>
         id in stream && deliveries > maxDeliveries && Counts(id, Some(deliveries), rows, answers)
       case Handle(_, count) =>
         id in stream && (count.Some? ==> count.value <= maxDeliveries) && Counts(id, count, rows, answers)
  }

  /** The same told by the row of the entry before it was claimed. */
  ghost predicate DecidedFrom(decision: Decision, row: Row, stream: set<nat>, maxDeliveries: nat, answers: Answers) {
    && decision.id == row.id
    && (decision.AckGone? <==> row.id !in stream)
    && (decision.DeadLetter? <==> row.id in stream && answers.counts(row.id) && row.count >= maxDeliveries)
    && (decision.DeadLetter? ==> decision.deliveries == row.count + 1)
    && (decision.Handle? ==> decision.count == if answers.counts(row.id) then Some(row.count + 1) else None)
  }

  /** The decisions are those about the first claimed entries, in order. */
  ghost predicate DecidedInOrder(decisions: seq<Decision>, claimed: seq<nat>, rows: seq<Row>, stream: set<nat>,
                                 maxDeliveries: nat, answers: Answers) {
    && |decisions| <= |claimed|
    && (forall i :: 0 <= i < |decisions| ==> !AckFails(answers, stream, claimed[i]))
    && (forall i, r :: 0 <= i < |decisions| && r in rows && r.id == claimed[i] ==>
          DecidedFrom(decisions[i], r, stream, maxDeliveries, answers))
  }

  /** One decision per claimed entry, in order, up to the first trimmed one whose XACK fails. */
  ghost predicate AllDecided(claimed: seq<nat>, decisions: seq<Decision>, ok: bool, rows: seq<Row>, stream: set<nat>,
                             maxDeliveries: nat, answers: Answers) {
    && |decisions| <= |claimed|
    && (forall i :: 0 <= i < |decisions| ==>
          && Decided(decisions[i], claimed[i], rows, stream, maxDeliveries, answers)
          && !AckFails(answers, stream, claimed[i]))
    && if ok then |decisions| == |claimed|
       else |decisions| < |claimed| && AckFails(answers, stream, claimed[|decisions|])
  }

  function Ids(rows: seq<Row>): set<nat> {
    set r | r in rows :: r.id
  }

  function IdsFrom(rows: seq<Row>, start: nat): set<nat> {
    set r | r in rows && r.id >= start :: r.id
  }

  /** Every row that was idle long enough when the pass began has been claimed. */
  ghost predicate Covered(rows: seq<Row>, now: int, minIdle: int, claimed: seq<nat>) {
    forall r :: r in rows && Idle(r, now, minIdle) ==> r.id in claimed
  }

  /** Half-way through a pass that began at `now` with `rows`: behind the cursor all is done, from it on nothing is. */
  ghost predicate Passed(rows: seq<Row>, now: int, minIdle: int, current: seq<Row>, start: nat, claimed: seq<nat>) {
    && (forall r: Row :: r.id >= start ==> (r in current <==> r in rows))
    && (forall r :: r in rows && r.id < start && Idle(r, now, minIdle) ==> r.id in claimed)
    && Increasing(claimed)
    && (forall id :: id in claimed ==> id < start && id in Ids(rows))
    && (forall r :: r in current ==> r.id in Ids(rows))
  }

  /** The ids that are no longer in the stream. */
  ghost function Gone(ids: seq<nat>, stream: set<nat>): set<nat> {
    set id | id in ids && id !in stream
  }

  /** The ids that leave the pending list when they are handled: trimmed ones, and those that are ACKed. */
  ghost function Leaving(ids: seq<nat>, stream: set<nat>, answers: Answers): set<nat> {
    set id | id in ids && (id !in stream || answers.handled(id))
  }

  /** The ids that the handlers ACK. */
  ghost function Acked(decisions: seq<Decision>, answers: Answers): set<nat> {
    set d | d in decisions && !d.AckGone? && answers.handled(d.id) :: d.id
  }

  lemma GoneAndAcked(claimed: seq<nat>, decisions: seq<Decision>, rows: seq<Row>, stream: set<nat>,
                     maxDeliveries: nat, answers: Answers)
    requires AllDecided(claimed, decisions, true, rows, stream, maxDeliveries, answers)
    ensures Gone(claimed, stream) + Acked(decisions, answers) == Leaving(claimed, stream, answers)
  {
    forall id | id in Leaving(claimed, stream, answers)
      ensures id in Gone(claimed, stream) + Acked(decisions, answers)
    {
      var i :| 0 <= i < |claimed| && claimed[i] == id;
      assert decisions[i] in decisions && decisions[i].id == id;
    }
  }

  /** A row that has been claimed once more. */
  ghost predicate ClaimedAgain(row: Row, before: seq<Row>, now: int) {
    row.deliveredAt >= now && exists r :: r in before && r.id == row.id && row.count == r.count + 1
  }

  /** `after` has the rows of `before`, those of `claimed` with one delivery more, unless they are in `leaving`. */
  ghost predicate Claims(before: seq<Row>, after: seq<Row>, claimed: seq<nat>, now: int, leaving: set<nat>) {
    && (forall q: Row :: q.id !in claimed ==> (q in after <==> q in before))
    && (forall q :: q in after && q.id in claimed ==> ClaimedAgain(q, before, now))
    && (forall r :: r in before && r.id in claimed ==> (r.id in Ids(after) <==> r.id !in leaving))
  }

  /** `batch` is what a scan from `start` up to `next` (to the end when `next` is 0) has to claim at `now`. */
  ghost predicate IsBatch(current: seq<Row>, now: int, minIdle: int, start: nat, next: nat, batch: seq<nat>) {
    && Increasing(batch)
    && (forall id :: id in batch ==> start <= id && (next != 0 ==> id < next) && id in Ids(current))
    && (forall r :: r in current && start <= r.id && (next == 0 || r.id < next) && Idle(r, now, minIdle) ==>
          r.id in batch)
  }

  lemma ScanIsBatch(current: seq<Row>, now: int, minIdle: int, start: nat, next: nat, from: nat, to: nat)
    requires Ascending(current) && from <= to <= |current|
    requires forall i :: 0 <= i < |current| ==> (i < from <==> current[i].id < start)
    requires next == if to < |current| then current[to].id else 0
    ensures IsBatch(current, now, minIdle, start, next, IdleIds(current[from..to], now, minIdle))
  {
    var window := current[from..to];
    var batch := IdleIds(window, now, minIdle);
    IdleIdsAreIdle(window, now, minIdle);
    forall id | id in batch
      ensures start <= id && id in Ids(current) && (next != 0 ==> id < next)
    {
      var r :| r in window && r.id == id && Idle(r, now, minIdle);
      var i :| 0 <= i < to - from && window[i] == r;
      assert current[from + i] == r && r in current;
    }
    forall r | r in current && start <= r.id && (next == 0 || r.id < next) && Idle(r, now, minIdle)
      ensures r.id in batch
    {
      var i :| 0 <= i < |current| && current[i] == r;
      assert from <= i < to;
      assert r == window[i - from];
    }
  }

  /** XAUTOCLAIM counts one delivery more for what it claims, and changes no other row. */
  lemma ScanClaims(current: seq<Row>, from: nat, to: nat, now: int, minIdle: int)
    requires Ascending(current) && from <= to <= |current|
    ensures Claims(current, Scanned(current, from, to, now, minIdle),
                   IdleIds(current[from..to], now, minIdle), now, {})
  {
    var scanned := Scanned(current, from, to, now, minIdle);
    var window := current[from..to];
    var batch := IdleIds(window, now, minIdle);
    IdleIdsAreIdle(window, now, minIdle);
    forall i | 0 <= i < |current|
      ensures current[i].id in batch <==> from <= i < to && Idle(current[i], now, minIdle)
      ensures scanned[i].id == current[i].id && (current[i].id in batch ==> ClaimedAgain(scanned[i], current, now))
      ensures current[i].id !in batch ==> scanned[i] == current[i]
    {
      InBatch(current, from, to, now, minIdle, i);
      assert current[i] in current;
    }
    forall r | r in current
      ensures r.id in Ids(scanned) && (r.id !in batch ==> r in scanned)
    {
      var i :| 0 <= i < |current| && current[i] == r;
      assert scanned[i] in scanned;
    }
  }

  lemma InBatch(current: seq<Row>, from: nat, to: nat, now: int, minIdle: int, i: nat)
    requires Ascending(current) && from <= to <= |current| && i < |current|
    ensures current[i].id in IdleIds(current[from..to], now, minIdle) <==>
            from <= i < to && Idle(current[i], now, minIdle)
  {
    var window := current[from..to];
    IdleIdsAreIdle(window, now, minIdle);
    if current[i].id in IdleIds(window, now, minIdle) {
      var r :| r in window && r.id == current[i].id && Idle(r, now, minIdle);
      var k :| 0 <= k < |window| && window[k] == r;
      assert current[from + k].id == current[i].id;
    }
    if from <= i < to && Idle(current[i], now, minIdle) {
      assert window[i - from] == current[i];
    }
  }

  /** A pass that was cut short: nothing has left the pending list but what was settled before that. */
  ghost predicate LeftOnly(before: seq<Row>, after: seq<Row>, claimed: seq<nat>, decisions: seq<Decision>,
                           stream: set<nat>, answers: Answers)
  {
    && |decisions| <= |claimed|
    && (forall q: Row :: q.id !in claimed ==> (q in after <==> q in before))
    && (forall r :: r in before && r.id !in Ids(after) ==> r.id in Leaving(claimed[..|decisions|], stream, answers))
  }

  lemma ClaimsCutShort(rows: seq<Row>, after: seq<Row>, claimed: seq<nat>, batch: seq<nat>, began: int,
                       decisions: seq<Decision>, taken: seq<Decision>, stream: set<nat>, answers: Answers)
    requires |decisions| == |claimed| && |taken| <= |batch|
    requires Claims(rows, after, claimed + batch, began,
                    Leaving(claimed, stream, answers) + Gone(batch[..|taken|], stream))
    ensures LeftOnly(rows, after, claimed + batch, decisions + taken, stream, answers)
  {
    assert (claimed + batch)[..|decisions + taken|] == claimed + batch[..|taken|];
    assert forall r :: r in rows && r.id !in claimed + batch ==> r in after;
  }

  lemma ClaimsWithout(before: seq<Row>, scanned: seq<Row>, after: seq<Row>, claimed: seq<nat>, now: int,
                      leaving: set<nat>)
    requires Claims(before, scanned, claimed, now, {}) && Without(scanned, after, leaving)
    requires forall id :: id in leaving ==> id in claimed
    ensures Claims(before, after, claimed, now, leaving)
  {
  }

  /** Two parts of a pass, one after the other. */
  lemma ClaimsMore(rows: seq<Row>, middle: seq<Row>, after: seq<Row>, a: seq<nat>, b: seq<nat>, began: int, now: int,
                   left: set<nat>, leaving: set<nat>)
    requires Claims(rows, middle, a, began, left) && Claims(middle, after, b, now, leaving) && began <= now
    requires forall id :: id in a ==> id !in b
    requires (forall id :: id in left ==> id in a) && (forall id :: id in leaving ==> id in b)
    ensures Claims(rows, after, a + b, began, left + leaving)
  {
    forall r | r in rows && r.id in a + b
      ensures r.id in Ids(after) <==> r.id !in left + leaving
    {
      if r.id in a {
        SameIds(middle, after, b, r.id);
      }
    }
  }

  lemma SameIds(middle: seq<Row>, after: seq<Row>, b: seq<nat>, id: nat)
    requires forall q: Row :: q.id !in b ==> (q in after <==> q in middle)
    requires id !in b
    ensures id in Ids(after) <==> id in Ids(middle)
  {
  }

  /** Decisions about the rows as they are counted now, told by the rows as they were before. */
  lemma DecidedFromBefore(rows: seq<Row>, scanned: seq<Row>, batch: seq<nat>, now: int, decisions: seq<Decision>,
                          ok: bool, stream: set<nat>, maxDeliveries: nat, answers: Answers)
    requires Ascending(rows) && Ascending(scanned) && Claims(rows, scanned, batch, now, {})
    requires AllDecided(batch, decisions, ok, scanned, stream, maxDeliveries, answers)
    ensures DecidedInOrder(decisions, batch, rows, stream, maxDeliveries, answers)
  {
    forall i, r | 0 <= i < |decisions| && r in rows && r.id == batch[i]
      ensures DecidedFrom(decisions[i], r, stream, maxDeliveries, answers)
    {
      assert r.id in Ids(scanned);
      forall q | q in scanned && q.id == r.id
        ensures q.count == r.count + 1
      {
        var before :| before in rows && before.id == q.id && q.count == before.count + 1;
        SameRow(rows, before, r);
      }
    }
  }

  lemma SameRow(rows: seq<Row>, r: Row, q: Row)
    requires Ascending(rows) && r in rows && q in rows && r.id == q.id
    ensures r == q
  {
  }

  lemma DecidedConcat(rows: seq<Row>, current: seq<Row>, a: seq<nat>, b: seq<nat>, before: seq<Decision>,
                      more: seq<Decision>, stream: set<nat>, maxDeliveries: nat, answers: Answers)
    requires DecidedInOrder(before, a, rows, stream, maxDeliveries, answers) && |before| == |a|
    requires DecidedInOrder(more, b, current, stream, maxDeliveries, answers)
    requires forall r :: r in rows && r.id in b ==> r in current
    ensures DecidedInOrder(before + more, a + b, rows, stream, maxDeliveries, answers)
  {
  }

  lemma DecidedBefore(rows: seq<Row>, before: seq<Row>, gone: set<nat>, decision: Decision, id: nat, stream: set<nat>,
                      maxDeliveries: nat, answers: Answers)
    requires Without(rows, before, gone) && id !in gone
    requires Decided(decision, id, before, stream, maxDeliveries, answers)
    ensures Decided(decision, id, rows, stream, maxDeliveries, answers)
  {
  }

  lemma DecidedMore(claimed: seq<nat>, i: nat, decisions: seq<Decision>, decision: Decision, rows: seq<Row>,
                    before: seq<Row>, stream: set<nat>, maxDeliveries: nat, answers: Answers)
    requires i < |claimed| && Increasing(claimed) && Without(rows, before, Gone(claimed[..i], stream))
    requires AllDecided(claimed[..i], decisions, true, rows, stream, maxDeliveries, answers)
    requires Decided(decision, claimed[i], before, stream, maxDeliveries, answers)
    ensures if AckFails(answers, stream, claimed[i])
            then AllDecided(claimed, decisions, false, rows, stream, maxDeliveries, answers)
            else AllDecided(claimed[..i + 1], decisions + [decision], true, rows, stream, maxDeliveries, answers)
  {
    assert claimed[i] !in claimed[..i];
    DecidedBefore(rows, before, Gone(claimed[..i], stream), decision, claimed[i], stream, maxDeliveries, answers);
    assert forall j :: 0 <= j < i ==> claimed[..i][j] == claimed[j] == claimed[..i + 1][j];
  }

  /** One XAUTOCLAIM and the handling of its batch move a pass on, to its end when the cursor comes back as 0. */
  lemma PassedOn(rows: seq<Row>, began: int, minIdle: int, current: seq<Row>, start: nat, claimed: seq<nat>,
                 now: int, next: nat, batch: seq<nat>)
    requires Passed(rows, began, minIdle, current, start, claimed) && now >= began
    requires IsBatch(current, now, minIdle, start, next, batch) && (next == 0 || start < next)
    ensures Increasing(claimed + batch)
    ensures forall id :: id in claimed + batch ==> id in Ids(rows) && (next != 0 ==> id < next)
    ensures forall r :: r in rows && (next == 0 || r.id < next) && Idle(r, began, minIdle) ==> r.id in claimed + batch
  {
    IncreasingConcat(claimed, batch, start);
    forall r | r in rows && (next == 0 || r.id < next) && Idle(r, began, minIdle)
      ensures r.id in claimed + batch
    {
      if r.id >= start {
        assert r in current && Idle(r, now, minIdle);
      }
    }
  }

  lemma IncreasingConcat(a: seq<nat>, b: seq<nat>, middle: nat)
    requires Increasing(a) && Increasing(b)
    requires (forall id :: id in a ==> id < middle) && (forall id :: id in b ==> middle <= id)
    ensures Increasing(a + b)
  {
    assert forall i :: 0 <= i < |a| ==> a[i] in a;
    assert forall i :: 0 <= i < |b| ==> b[i] in b;
  }

  /** The rows from the new cursor on are untouched. */
  lemma PassedRest(current: seq<Row>, from: nat, to: nat, now: int, minIdle: int, next: nat, batch: seq<nat>,
                   after: seq<Row>)
    requires Ascending(current) && from <= to <= |current| && next == if to < |current| then current[to].id else 0
    requires next != 0 ==> forall id :: id in batch ==> id < next
    requires forall r :: r in after ==> r in Scanned(current, from, to, now, minIdle)
    requires forall r :: r in Scanned(current, from, to, now, minIdle) && r.id !in batch ==> r in after
    ensures next != 0 ==> forall r: Row :: r.id >= next ==> (r in after <==> r in current)
    ensures forall r :: r in after ==> r.id in Ids(current)
  {
    var scanned := Scanned(current, from, to, now, minIdle);
    assert forall i :: 0 <= i < |current| ==> scanned[i].id == current[i].id;
    assert forall i :: to <= i < |current| ==> scanned[i] == current[i];
    forall r: Row | r in scanned
      ensures r.id in Ids(current) && (next != 0 && r.id >= next ==> r in current)
    {
      var i :| 0 <= i < |scanned| && scanned[i] == r;
      assert current[i] in current && current[i].id == r.id;
    }
    forall r: Row | r in current && next != 0 && r.id >= next
      ensures r in after
    {
      var i :| 0 <= i < |current| && current[i] == r;
      assert scanned[i] == r;
    }
  }

  /** What is left to scan shrinks. */
  lemma LessToScan(current: seq<Row>, start: nat, next: nat, after: seq<Row>)
    requires start < next && exists r :: r in current && start <= r.id < next
    requires forall r: Row :: r.id >= next ==> (r in after <==> r in current)
    ensures IdsFrom(after, next) < IdsFrom(current, start)
  {
    var r :| r in current && start <= r.id < next;
    assert r.id in IdsFrom(current, start) && r.id !in IdsFrom(after, next);
  }

  class Consumer {
    const group: Group
    const batchSize: nat
    const reclaimIdleMs: int
    const maxDeliveries: nat
    var isRunning: bool

    constructor (group: Group, batchSize: nat, reclaimIdleMs: int, maxDeliveries: nat)
      ensures this.group == group && this.batchSize == batchSize && this.isRunning
      ensures this.reclaimIdleMs == reclaimIdleMs && this.maxDeliveries == maxDeliveries
    {
      this.group := group;
      this.batchSize := batchSize;
      this.reclaimIdleMs := reclaimIdleMs;
      this.maxDeliveries := maxDeliveries;
      this.isRunning := true;
    }

    /** `_delivery_count`: nothing when Redis cannot be asked or shows no row. */
    method DeliveryCount(id: nat, reachable: bool) returns (count: Option<nat>)
      requires group.Valid()
      ensures count.Some? ==> reachable && exists r :: r in group.rows && r.id == id && r.count == count.value
      ensures count.None? <==> !reachable || forall r :: r in group.rows ==> r.id != id
    {
      count := None;
      if reachable {
        for i := 0 to |group.rows|
          invariant forall j :: 0 <= j < i ==> group.rows[j].id != id
        {
          if group.rows[i].id == id {
            return Some(group.rows[i].count);
          }
        }
      }
    }

    /** The decision about one claimed entry; the XACK of a trimmed one may fail. */
    method Decide(id: nat, answers: Answers) returns (ok: bool, decision: Decision)
      requires group.Valid()
      modifies group`rows
      ensures group.Valid()
      ensures ok <==> !AckFails(answers, group.stream, id)
      ensures Without(old(group.rows), group.rows, if ok && id !in group.stream then {id} else {})
      ensures Decided(decision, id, old(group.rows), group.stream, maxDeliveries, answers)
    {
      if id !in group.stream {
        ok := answers.acks(id);
        if ok {
          group.rows := Remove(group.rows, id);
        }
        decision := AckGone(id);
      } else {
        var count := DeliveryCount(id, answers.counts(id));
        ok := true;
        decision := if count.Some? && count.value > maxDeliveries then DeadLetter(id, count.value)
                    else Handle(id, count);
      }
    }

    /**
     `_handle_reclaimed`, for the batch of the scan from `cursor`: one decision per claimed entry, in order; then
     all handlers together, each of which may ACK its entry. The first XACK of a trimmed entry that fails ends it
     before any handler has begun: only the trimmed entries before it have left the pending list then.
     */
    method HandleReclaimed(claimed: seq<nat>, cursor: nat, answers: Answers)
      returns (ok: bool, decisions: seq<Decision>)
      requires group.Valid() && Increasing(claimed)
      modifies group`rows, group`now
      ensures group.Valid() && group.now >= old(group.now)
      ensures AllDecided(claimed, decisions, ok, old(group.rows), group.stream, maxDeliveries, answers)
      ensures Without(old(group.rows), group.rows,
                      if ok then Leaving(claimed, group.stream, answers)
                      else Gone(claimed[..|decisions|], group.stream))
    {
      ok, decisions := DecideAll(claimed, answers);
      if ok {
        GoneAndAcked(claimed, decisions, old(group.rows), group.stream, maxDeliveries, answers);
        assert claimed[..|decisions|] == claimed;
        Gather(decisions, cursor, answers);
      }
    }

    /** The decisions, up to the first XACK of a trimmed entry that fails. */
    method DecideAll(claimed: seq<nat>, answers: Answers) returns (ok: bool, decisions: seq<Decision>)
      requires group.Valid() && Increasing(claimed)
      modifies group`rows
      ensures group.Valid()
      ensures AllDecided(claimed, decisions, ok, old(group.rows), group.stream, maxDeliveries, answers)
      ensures Without(old(group.rows), group.rows, Gone(claimed[..|decisions|], group.stream))
    {
      decisions := [];
      for i := 0 to |claimed|
        invariant group.Valid()
        invariant AllDecided(claimed[..i], decisions, true, old(group.rows), group.stream, maxDeliveries, answers)
        invariant Without(old(group.rows), group.rows, Gone(claimed[..i], group.stream))
      {
        ghost var before := group.rows;
        var decision;
        ok, decision := Decide(claimed[i], answers);
        DecidedMore(claimed, i, decisions, decision, old(group.rows), before, group.stream, maxDeliveries, answers);
        if !ok {
          return;
        }
        assert claimed[..i + 1] == claimed[..i] + [claimed[i]];
        decisions := decisions + [decision];
      }
      assert claimed[..|claimed|] == claimed;
      ok := true;
    }

    /** The handlers of the entries that have any: each ACKs its entry or leaves it pending, and they take time. */
    method Gather(decisions: seq<Decision>, cursor: nat, answers: Answers)
      requires group.Valid()
      modifies group`rows, group`now
      ensures group.Valid() && group.now == old(group.now) + answers.takes(cursor)
      ensures Without(old(group.rows), group.rows, Acked(decisions, answers))
    {
      for i := 0 to |decisions|
        invariant group.Valid() && group.now == old(group.now)
        invariant Without(old(group.rows), group.rows, Acked(decisions[..i], answers))
      {
        assert decisions[..i + 1] == decisions[..i] + [decisions[i]];
        if !decisions[i].AckGone? && answers.handled(decisions[i].id) {
          group.rows := Remove(group.rows, decisions[i].id);
          assert Acked(decisions[..i + 1], answers) == Acked(decisions[..i], answers) + {decisions[i].id};
        } else {
          assert Acked(decisions[..i + 1], answers) == Acked(decisions[..i], answers);
        }
      }
      assert decisions[..|decisions|] == decisions;
      group.now := group.now + answers.takes(cursor);
    }

    /**
     `_reclaim_pending`. The pass ends. It claims nothing twice, its cursors strictly increase, and it
     returns how many entries it claimed; unless it was stopped on the way, a pass that returns has claimed
     every entry that was idle long enough when it began. It takes one decision about each claimed entry, by the
     row that the entry had before; a claimed entry stays pending, with one delivery more, exactly when it is still in
     the stream and its handler does not ACK it, and no other row changes. It raises only when an XAUTOCLAIM, or the
     XACK of a trimmed entry, did. A `stop()` during a scan makes that scan the last one.
     */
    method ReclaimPending(answers: Answers)
      returns (result: Result, claimed: seq<nat>, cursors: seq<nat>, decisions: seq<Decision>)
      requires group.Valid()
      modifies this`isRunning, group`rows, group`now
      ensures group.Valid()
      ensures result.Ok? ==> result.reclaimed == |claimed| == |decisions|
      ensures Increasing(claimed) && Increasing(cursors)
      ensures forall id :: id in claimed ==> id in old(Ids(group.rows))
      ensures result.Ok? && isRunning ==> Covered(old(group.rows), old(group.now), reclaimIdleMs, claimed)
      ensures DecidedInOrder(decisions, claimed, old(group.rows), group.stream, maxDeliveries, answers)
      ensures |decisions| == |claimed| ==>
                Claims(old(group.rows), group.rows, claimed, old(group.now), Leaving(claimed, group.stream, answers))
      ensures |decisions| < |claimed| ==>
                && result.Raised? && AckFails(answers, group.stream, claimed[|decisions|])
                && LeftOnly(old(group.rows), group.rows, claimed, decisions, group.stream, answers)
      ensures result.Raised? <==>
                || (exists c :: c in cursors && (!answers.claims(c) || batchSize == 0))
                || |decisions| < |claimed|
      ensures isRunning <==> old(isRunning) && forall c :: c in cursors ==> !answers.stops(c)
      ensures forall i :: 0 <= i < |cursors| - 1 ==> !answers.stops(cursors[i])
      ensures cursors == [] <==> !old(isRunning)
      ensures old(isRunning) ==> cursors[0] == 0
      ensures old(isRunning) && batchSize > 0 && Calm(answers) ==> result.Ok? && isRunning
    {
      var reclaimed: nat := 0;
      var startId: nat := 0;
      claimed, cursors, decisions := [], [], [];
      while isRunning
        invariant group.Valid() && group.now >= old(group.now)
        invariant reclaimed == |claimed| == |decisions|
        invariant Passed(old(group.rows), old(group.now), reclaimIdleMs, group.rows, startId, claimed)
        invariant DecidedInOrder(decisions, claimed, old(group.rows), group.stream, maxDeliveries, answers)
        invariant Claims(old(group.rows), group.rows, claimed, old(group.now),
                         Leaving(claimed, group.stream, answers))
        invariant Increasing(cursors)
        invariant forall c :: c in cursors ==> c < startId && answers.claims(c) && batchSize > 0
        invariant isRunning <==> old(isRunning) && forall c :: c in cursors ==> !answers.stops(c)
        invariant forall i :: 0 <= i < |cursors| - 1 ==> !answers.stops(cursors[i])
        invariant if cursors == [] then startId == 0 && isRunning == old(isRunning)
                  else cursors[0] == 0 && old(isRunning)
        decreases IdsFrom(group.rows, startId)
      {
        IncreasingMore(cursors, startId);
        ghost var earlier := cursors;
        cursors := cursors + [startId];
        if answers.stops(startId) {
          isRunning := false;
        }
        assert forall c :: c in cursors <==> c in earlier || c == startId;
        if !answers.claims(startId) || batchSize == 0 {
          return Raised, claimed, cursors, decisions;
        }
        var ok, nextId, batch, taken :=
          ScanOnce(startId, answers, old(group.rows), old(group.now), claimed, decisions);
        claimed := claimed + batch;
        decisions := decisions + taken;
        reclaimed := reclaimed + |batch|;
        if !ok {
          return Raised, claimed, cursors, decisions;
        }
        if nextId == 0 || nextId == startId {
          break;
        }
        startId := nextId;
      }
      result := Ok(reclaimed);
    }

    /** One turn of that loop, in a pass that began with `rows` at `began`, and has claimed and decided so much. */
    method ScanOnce(startId: nat, answers: Answers, ghost rows: seq<Row>, ghost began: int, ghost claimed: seq<nat>,
                    ghost decisions: seq<Decision>)
      returns (ok: bool, nextId: nat, batch: seq<nat>, taken: seq<Decision>)
      requires group.Valid() && batchSize > 0
      requires Passed(rows, began, reclaimIdleMs, group.rows, startId, claimed) && group.now >= began
      requires Claims(rows, group.rows, claimed, began, Leaving(claimed, group.stream, answers))
      requires DecidedInOrder(decisions, claimed, rows, group.stream, maxDeliveries, answers)
      requires |decisions| == |claimed|
      modifies group`rows, group`now
      ensures group.Valid() && group.now >= began
      ensures Increasing(claimed + batch) && forall id :: id in claimed + batch ==> id in Ids(rows)
      ensures nextId == 0 ==> Covered(rows, began, reclaimIdleMs, claimed + batch)
      ensures nextId != 0 ==>
                startId < nextId && Passed(rows, began, reclaimIdleMs, group.rows, nextId, claimed + batch)
      ensures nextId != 0 ==> IdsFrom(group.rows, nextId) < IdsFrom(old(group.rows), startId)
      ensures DecidedInOrder(decisions + taken, claimed + batch, rows, group.stream, maxDeliveries, answers)
      ensures if ok then |taken| == |batch|
              else |taken| < |batch| && AckFails(answers, group.stream, batch[|taken|])
      ensures if ok
              then Claims(rows, group.rows, claimed + batch, began, Leaving(claimed + batch, group.stream, answers))
              else LeftOnly(rows, group.rows, claimed + batch, decisions + taken, group.stream, answers)
    {
      ghost var before, now := group.rows, group.now;
      ok, nextId, batch, taken := ClaimAndHandle(startId, answers);
      PassedOn(rows, began, reclaimIdleMs, before, startId, claimed, now, nextId, batch);
      if nextId != 0 {
        LessToScan(before, startId, nextId, group.rows);
      }
      DecidedConcat(rows, before, claimed, batch, decisions, taken, group.stream, maxDeliveries, answers);
      ghost var left, leaving := Leaving(claimed, group.stream, answers), Leaving(batch, group.stream, answers);
      if ok {
        ClaimsMore(rows, before, group.rows, claimed, batch, began, now, left, leaving);
        assert left + leaving == Leaving(claimed + batch, group.stream, answers);
      } else {
        leaving := Gone(batch[..|taken|], group.stream);
        ClaimsMore(rows, before, group.rows, claimed, batch, began, now, left, leaving);
        ClaimsCutShort(rows, group.rows, claimed, batch, began, decisions, taken, group.stream, answers);
      }
    }

    /** Its body: one XAUTOCLAIM, and the handling of what it claimed. */
    method ClaimAndHandle(startId: nat, answers: Answers)
      returns (ok: bool, nextId: nat, batch: seq<nat>, taken: seq<Decision>)
      requires group.Valid() && batchSize > 0
      modifies group`rows, group`now
      ensures group.Valid() && group.now >= old(group.now)
      ensures IsBatch(old(group.rows), old(group.now), reclaimIdleMs, startId, nextId, batch)
      ensures nextId == 0 || exists r :: r in old(group.rows) && startId <= r.id < nextId
      ensures nextId != 0 ==> forall r: Row :: r.id >= nextId ==> (r in group.rows <==> r in old(group.rows))
      ensures forall r :: r in group.rows ==> r.id in Ids(old(group.rows))
      ensures DecidedInOrder(taken, batch, old(group.rows), group.stream, maxDeliveries, answers)
      ensures if ok then |taken| == |batch|
              else |taken| < |batch| && AckFails(answers, group.stream, batch[|taken|])
      ensures Claims(old(group.rows), group.rows, batch, old(group.now),
                     if ok then Leaving(batch, group.stream, answers) else Gone(batch[..|taken|], group.stream))
    {
      ghost var current := group.rows;
      var from, to;
      nextId, batch, from, to := group.XAutoClaim(reclaimIdleMs, startId, batchSize);
      ScanIsBatch(current, group.now, reclaimIdleMs, startId, nextId, from, to);
      ScanClaims(current, from, to, group.now, reclaimIdleMs);
      ghost var scanned := group.rows;
      ok, taken := true, [];
      if batch != [] {
        ok, taken := HandleReclaimed(batch, startId, answers);
      }
      DecidedFromBefore(current, scanned, batch, old(group.now), taken, ok, group.stream, maxDeliveries, answers);
      ClaimsWithout(current, scanned, group.rows, batch, old(group.now),
                    if ok then Leaving(batch, group.stream, answers) else Gone(batch[..|taken|], group.stream));
      if nextId != 0 {
        assert current[from] in current && startId <= current[from].id < nextId;
      }
      PassedRest(current, from, to, old(group.now), reclaimIdleMs, nextId, batch, group.rows);
    }
  }
}
