/** The reading side of the event log: `events_after`, the paging cursor of the API, and the freeze check. */
module EventPaging {
  import opened Prelude
  import opened StateModel
  import opened StateInvariants

  datatype ReadError = OutOfRange | NoSuchRun | CursorExpired | SequenceGap

  function Sequences(db: Db, runId: string): set<nat> {
    set k | k in db.events && k.runId == runId :: k.sequence
  }

  function Least(s: set<nat>): (least: nat)
    requires s != {}
    ensures least in s && forall n :: n in s ==> least <= n
  {
    HasLeast(s);
    var least :| least in s && forall n :: n in s ==> least <= n;
    least
  }

  lemma HasLeast(s: set<nat>)
    requires s != {}
    ensures exists least :: least in s && forall n :: n in s ==> least <= n
  {
    var _ := LeastExists(s);
  }

  lemma {:induction false} LeastExists(s: set<nat>) returns (least: nat)
    requires s != {}
    ensures least in s && forall n :: n in s ==> least <= n
  {
    var x :| x in s;
    if s == {x} {
      least := x;
    } else {
      var rest := LeastExists(s - {x});
      least := if x <= rest then x else rest;
      assert forall n :: n in s ==> n == x || n in s - {x};
    }
  }

  function Later(db: Db, runId: string, after: nat): (later: set<nat>)
    ensures later <= Sequences(db, runId)
  {
    set n | n in Sequences(db, runId) && n > after
  }

  /** SELECT ... WHERE run_id=? AND sequence>? ORDER BY sequence LIMIT ? */
  function Select(db: Db, runId: string, after: nat, limit: nat): (rows: seq<Event>)
    ensures |rows| <= limit
    ensures forall i :: 0 <= i < |rows| ==> exists n ::
      LogKey(runId, n) in db.events && db.events[LogKey(runId, n)] == rows[i]
    decreases limit
  {
    var later := Later(db, runId, after);
    if limit == 0 || later == {} then []
    else
      var next := Least(later);
      [db.events[LogKey(runId, next)]] + Select(db, runId, next, limit - 1)
  }

  predicate Contiguous(events: seq<Event>, after: nat) {
    forall i :: 0 <= i < |events| ==> events[i].sequence == after + 1 + i
  }

  function EventsAfter(db: Db, runId: string, sequence: int, limit: int): Result<seq<Event>, ReadError> {
    if sequence < 0 || limit < 1 || limit > 1000 then Err(OutOfRange)
    else if Sequences(db, runId) == {} then
      if runId in db.runs then Ok([]) else Err(NoSuchRun)
    else if sequence + 1 < Least(Sequences(db, runId)) then Err(CursorExpired)
    else
      var events := Select(db, runId, sequence, limit);
      if Contiguous(events, sequence) then Ok(events) else Err(SequenceGap)
  }

  /** The whole log of a run, in order. */
  ghost function Log(db: Db, runId: string): seq<Event>
    requires GapFree(db) && runId in db.runs
  {
    seq(db.runs[runId].lastSequence, i requires 0 <= i < db.runs[runId].lastSequence => db.events[LogKey(runId, i + 1)])
  }

  function Min(a: int, b: int): int { if a <= b then a else b }

  lemma GapFreeSequences(db: Db, runId: string)
    requires GapFree(db) && runId in db.runs
    ensures forall n: nat :: n in Sequences(db, runId) <==> 1 <= n <= db.runs[runId].lastSequence
  {
    forall n: nat | 1 <= n <= db.runs[runId].lastSequence
      ensures n in Sequences(db, runId)
    {
      assert LogKey(runId, n) in db.events;
    }
  }

  lemma LaterIsNext(db: Db, runId: string, after: nat)
    requires GapFree(db) && runId in db.runs && after <= db.runs[runId].lastSequence
    ensures var later := Later(db, runId, after);
            if after == db.runs[runId].lastSequence then later == {} else later != {} && Least(later) == after + 1
  {
    GapFreeSequences(db, runId);
    hide GapFree;
    if after < db.runs[runId].lastSequence {
      assert after + 1 in Later(db, runId, after);
    }
  }

  lemma SliceFrom(log: seq<Event>, i: nat, j: nat)
    requires i < j <= |log|
    ensures log[i..j] == [log[i]] + log[i + 1..j]
  {
  }

  /** On a gap-free log the query is a slice. */
  lemma {:induction false} SelectIsSlice(db: Db, runId: string, after: nat, limit: nat)
    requires GapFree(db) && runId in db.runs && after <= db.runs[runId].lastSequence
    ensures Select(db, runId, after, limit) == Log(db, runId)[after..Min(after + limit, db.runs[runId].lastSequence)]
    decreases limit
  {
    LaterIsNext(db, runId, after);
    hide GapFree, Later, Least;
    var last := db.runs[runId].lastSequence;
    if limit != 0 && after < last {
      SelectIsSlice(db, runId, after + 1, limit - 1);
      SliceFrom(Log(db, runId), after, Min(after + limit, last));
    }
  }

  /** Every cursor up to the end reads without a gap or an expired cursor, and returns the next slice of the log. */
  lemma ReadIsSlice(db: Db, runId: string, after: nat, limit: nat)
    requires GapFree(db) && runId in db.runs && after <= db.runs[runId].lastSequence && 1 <= limit <= 1000
    ensures EventsAfter(db, runId, after, limit)
         == Ok(Log(db, runId)[after..Min(after + limit, db.runs[runId].lastSequence)])
  {
    GapFreeSequences(db, runId);
    SelectIsSlice(db, runId, after, limit);
    var last := db.runs[runId].lastSequence;
    if last >= 1 {
      assert 1 in Sequences(db, runId);
    } else {
      assert Sequences(db, runId) == {};
    }
    var slice := Log(db, runId)[after..Min(after + limit, last)];
    forall i | 0 <= i < |slice|
      ensures slice[i].sequence == after + 1 + i
    {
      assert slice[i] == db.events[LogKey(runId, after + i + 1)];
    }
  }

  // ---------------------------------------------------------------- any database

  ghost predicate SelfKeyed(db: Db) {
    forall k :: k in db.events ==> LogKey(db.events[k].runId, db.events[k].sequence) == k
  }

  /** The `k` events behind the cursor are there, and if that is less than asked for, there is none behind them. */
  ghost predicate Page(db: Db, runId: string, after: nat, limit: nat, k: nat) {
    && k <= limit && (forall i: nat :: after < i <= after + k ==> LogKey(runId, i) in db.events)
    && (k < limit ==> forall i: nat :: after + k < i ==> LogKey(runId, i) !in db.events)
  }

  lemma LaterIs(db: Db, runId: string, after: nat)
    ensures forall n :: n in Later(db, runId, after) <==> n > after && LogKey(runId, n) in db.events
  {
    forall n: nat | LogKey(runId, n) in db.events
      ensures n in Sequences(db, runId)
    {
    }
  }

  /** The rows are gap-free exactly if there is a page, and then they are that page. */
  ghost predicate Answers(db: Db, runId: string, after: nat, limit: nat, rows: seq<Event>) {
    && (Contiguous(rows, after) ==>
         && Page(db, runId, after, limit, |rows|)
         && forall i :: 0 <= i < |rows| ==> rows[i] == db.events[LogKey(runId, after + 1 + i)])
    && (forall k: nat :: Page(db, runId, after, limit, k) ==> Contiguous(rows, after))
  }

  lemma {:induction false} SelectPage(db: Db, runId: string, after: nat, limit: nat)
    requires SelfKeyed(db)
    ensures Answers(db, runId, after, limit, Select(db, runId, after, limit))
    decreases limit
  {
    LaterIs(db, runId, after);
    hide Later, Least, Answers;
    if limit == 0 || Later(db, runId, after) == {} {
      NoRows(db, runId, after, limit);
    } else {
      var next := Least(Later(db, runId, after));
      var rest := Select(db, runId, next, limit - 1);
      SelectPage(db, runId, next, limit - 1);
      if next == after + 1 {
        OneMoreRow(db, runId, after, limit, rest);
      } else {
        NoPage(db, runId, after, limit, next);
        GapFound(db, runId, after, limit, [db.events[LogKey(runId, next)]] + rest);
      }
    }
  }

  lemma NoRows(db: Db, runId: string, after: nat, limit: nat)
    requires limit == 0 || forall n: nat :: n > after ==> LogKey(runId, n) !in db.events
    ensures Answers(db, runId, after, limit, [])
  {
  }

  lemma OneMoreRow(db: Db, runId: string, after: nat, limit: nat, rest: seq<Event>)
    requires SelfKeyed(db) && limit > 0 && LogKey(runId, after + 1) in db.events
    requires Answers(db, runId, after + 1, limit - 1, rest)
    ensures Answers(db, runId, after, limit, [db.events[LogKey(runId, after + 1)]] + rest)
  {
    var rows := [db.events[LogKey(runId, after + 1)]] + rest;
    PageStep(db, runId, after, limit);
    hide Page;
    assert Contiguous(rows, after) <==> Contiguous(rest, after + 1) by {
      assert forall i :: 0 < i < |rows| ==> rows[i] == rest[i - 1];
      assert forall i :: 0 <= i < |rest| ==> rest[i] == rows[i + 1];
    }
  }

  lemma GapFound(db: Db, runId: string, after: nat, limit: nat, rows: seq<Event>)
    requires rows != [] && rows[0].sequence != after + 1 && forall k: nat :: !Page(db, runId, after, limit, k)
    ensures Answers(db, runId, after, limit, rows)
  {
    assert !Contiguous(rows, after);
  }

  lemma NoPage(db: Db, runId: string, after: nat, limit: nat, next: nat)
    requires limit > 0 && after < next && LogKey(runId, next) in db.events && LogKey(runId, after + 1) !in db.events
    ensures forall k: nat :: !Page(db, runId, after, limit, k)
  {
  }

  lemma PageStep(db: Db, runId: string, after: nat, limit: nat)
    requires limit > 0 && LogKey(runId, after + 1) in db.events
    ensures forall k: nat :: Page(db, runId, after, limit, k) <==> k > 0 && Page(db, runId, after + 1, limit - 1, k - 1)
  {
  }

  ghost predicate HasEvents(db: Db, runId: string) { exists n: nat :: LogKey(runId, n) in db.events }

  /** Every event of the run lies behind the one the cursor waits for. */
  ghost predicate Expired(db: Db, runId: string, after: nat) {
    HasEvents(db, runId) && forall n: nat :: LogKey(runId, n) in db.events ==> n > after + 1
  }

  /** What a read answers, whatever the tables hold: each of the four errors exactly when it is due, else the page. */
  lemma ReadExactly(db: Db, runId: string, sequence: int, limit: int)
    requires SelfKeyed(db)
    ensures var r := EventsAfter(db, runId, sequence, limit);
            if sequence < 0 || limit < 1 || 1000 < limit then r == Err(OutOfRange)
            else if !HasEvents(db, runId) && runId !in db.runs then r == Err(NoSuchRun)
            else if Expired(db, runId, sequence) then r == Err(CursorExpired)
            else if forall k: nat :: !Page(db, runId, sequence, limit, k) then r == Err(SequenceGap)
            else
              && r.Ok? && Page(db, runId, sequence, limit, |r.value|)
              && forall i :: 0 <= i < |r.value| ==> r.value[i] == db.events[LogKey(runId, sequence + 1 + i)]
  {
    if sequence >= 0 && 1 <= limit <= 1000 {
      hide Least, Select, Contiguous;
      assert HasEvents(db, runId) <==> Sequences(db, runId) != {} by { SomeSequence(db, runId); }
      if HasEvents(db, runId) {
        FirstSequence(db, runId, sequence);
        SelectPage(db, runId, sequence, limit);
      } else {
        assert Page(db, runId, sequence, limit, 0);
      }
    }
  }

  lemma SomeSequence(db: Db, runId: string)
    ensures HasEvents(db, runId) <==> Sequences(db, runId) != {}
  {
    if n: nat :| LogKey(runId, n) in db.events {
      assert n in Sequences(db, runId);
    }
    if n :| n in Sequences(db, runId) {
      assert LogKey(runId, n) in db.events;
    }
  }

  lemma FirstSequence(db: Db, runId: string, after: nat)
    requires Sequences(db, runId) != {}
    ensures after + 1 < Least(Sequences(db, runId)) <==> Expired(db, runId, after)
  {
    SomeSequence(db, runId);
    var first := Least(Sequences(db, runId));
    assert LogKey(runId, first) in db.events;
    forall n: nat | LogKey(runId, n) in db.events
      ensures first <= n
    {
      assert n in Sequences(db, runId);
    }
  }

  /** get_events: a page and the cursor of the next one. */
  function NextAfter(after: int, events: seq<Event>): int {
    if events == [] then after else events[|events| - 1].sequence
  }

  /**
   A client that pages from cursor 0 until a page is empty sees the whole log, for any accepted limit; no page fails.
   */
  method PageThrough(db: Db, runId: string, limit: nat) returns (log: seq<Event>)
    requires GapFree(db) && runId in db.runs && 1 <= limit <= 1000
    ensures log == Log(db, runId)
  {
    var after := 0;
    log := [];
    ghost var whole := Log(db, runId);
    while true
      invariant 0 <= after <= |whole|
      invariant log == whole[..after]
      decreases |whole| - after
    {
      ReadIsSlice(db, runId, after, limit);
      var page := EventsAfter(db, runId, after, limit).value;
      if page == [] {
        return;
      }
      assert page[|page| - 1] == whole[after + |page| - 1] == db.events[LogKey(runId, after + |page|)];
      log := log + page;
      after := NextAfter(after, page);
    }
  }

  /** The completeness check of freeze_report passes exactly when the log fits one page of 1000. */
  lemma FreezeAdmission(db: Db, runId: string)
    requires GapFree(db) && runId in db.runs
    ensures EventsAfter(db, runId, 0, 1000).Ok?
    ensures |EventsAfter(db, runId, 0, 1000).value| == db.runs[runId].lastSequence
       <==> db.runs[runId].lastSequence <= 1000
  {
    ReadIsSlice(db, runId, 0, 1000);
  }
}
