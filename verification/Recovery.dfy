/** recover_interrupted: every stale in-flight run is interrupted by one legal, keyed event. */
module Recovery {
  import opened Prelude
  import opened StateModel
  import opened StateInvariants
  import opened StateHistories
  import Decimal

  predicate InFlight(s: Status) { s in {Running, Pausing, Paused, Cancelling} }

  predicate Stale(db: Db, runId: string, cutoff: int) {
    runId in db.runs && InFlight(db.runs[runId].status) && db.runs[runId].updatedAt < cutoff
  }

  /** In flight is what can be interrupted. */
  lemma InFlightExactly(s: Status)
    ensures InFlight(s) <==> Interrupted in RunTransitions(s)
  {
  }

  function RecoveryKey(n: nat): string { "recovery-" + Decimal.Text(n) }

  /** What one turn of the loop draws from outside: an event id, the time it stamps, and the write's own clock. */
  datatype Draw = Draw(eventId: string, at: string, now: int)

  function RecoveryEvent(runId: string, last: nat, d: Draw): Event {
    Event(d.eventId, runId, last + 1, d.at, RunType(Interrupted), "stale_worker_lease", [])
  }

  /** The append that recovery submits for one run. */
  function RecoveryRequest(before: Db, runId: string, d: Draw): Request
    requires runId in before.runs
  {
    AppendEvent(RecoveryEvent(runId, before.runs[runId].lastSequence, d), Some(Interrupted))
  }

  /** The loop over the stale rows: each append is its own transaction, and the first failure stops the loop. */
  function Recover(sc: Schema, before: Db, db: Db, runs: seq<string>, draws: seq<Draw>)
    : (Db, Result<seq<string>, Failure>)
    requires |draws| == |runs| && forall i :: 0 <= i < |runs| ==> runs[i] in before.runs
    decreases |runs|
  {
    if runs == [] then (db, Ok([]))
    else
      var o := Write(sc, db, RecoveryRequest(before, runs[0], draws[0]),
                     RecoveryKey(before.runs[runs[0]].lastSequence + 1), draws[0].now);
      if o.reply.Err? then (o.db, Err(o.reply.error))
      else
        var (db', rest) := Recover(sc, before, o.db, runs[1..], draws[1..]);
        (db', if rest.Ok? then Ok([runs[0]] + rest.value) else rest)
  }

  /** The loop is resumable: the outcome of the whole list, given the outcome from position `i` on. */
  ghost predicate ResumesAt(sc: Schema, before: Db, db: Db, runs: seq<string>, draws: seq<Draw>, i: nat)
    requires i <= |runs| == |draws| && forall j :: 0 <= j < |runs| ==> runs[j] in before.runs
  {
    var (db', rest) := Recover(sc, before, db, runs[i..], draws[i..]);
    Recover(sc, before, before, runs, draws) == (db', if rest.Ok? then Ok(runs[..i] + rest.value) else rest)
  }

  lemma ResumeStart(sc: Schema, before: Db, runs: seq<string>, draws: seq<Draw>)
    requires |runs| == |draws| && forall j :: 0 <= j < |runs| ==> runs[j] in before.runs
    ensures ResumesAt(sc, before, before, runs, draws, 0)
  {
    assert runs[0..] == runs && draws[0..] == draws;
    var rest := Recover(sc, before, before, runs, draws).1;
    assert rest.Ok? ==> runs[..0] + rest.value == rest.value;
  }

  lemma ResumeEnd(sc: Schema, before: Db, db: Db, runs: seq<string>, draws: seq<Draw>)
    requires |runs| == |draws| && forall j :: 0 <= j < |runs| ==> runs[j] in before.runs
    requires ResumesAt(sc, before, db, runs, draws, |runs|)
    ensures Recover(sc, before, before, runs, draws) == (db, Ok(runs))
  {
    assert runs[|runs|..] == [] && runs[..|runs|] == runs && runs + [] == runs;
  }

  lemma ResumeStep(sc: Schema, before: Db, db: Db, runs: seq<string>, draws: seq<Draw>, i: nat, o: Outcome)
    requires i < |runs| == |draws| && forall j :: 0 <= j < |runs| ==> runs[j] in before.runs
    requires ResumesAt(sc, before, db, runs, draws, i)
    requires o == Write(sc, db, RecoveryRequest(before, runs[i], draws[i]),
                        RecoveryKey(before.runs[runs[i]].lastSequence + 1), draws[i].now)
    ensures o.reply.Err? ==> Recover(sc, before, before, runs, draws) == (o.db, Err(o.reply.error))
    ensures o.reply.Ok? ==> ResumesAt(sc, before, o.db, runs, draws, i + 1)
  {
    hide Write;
    assert runs[i..][0] == runs[i] && draws[i..][0] == draws[i];
    assert runs[i..][1..] == runs[i + 1..] && draws[i..][1..] == draws[i + 1..];
    if o.reply.Ok? {
      var rest := Recover(sc, before, o.db, runs[i + 1..], draws[i + 1..]).1;
      assert rest.Ok? ==> runs[..i] + ([runs[i]] + rest.value) == runs[..i + 1] + rest.value;
    }
  }

  /** No append key of this run already spells the key recovery is about to use. */
  predicate KeyFree(db: Db, runId: string)
    requires runId in db.runs
  {
    IdempotencyKey(runId, AppendEventOp, RecoveryKey(db.runs[runId].lastSequence + 1)) !in db.idempotency
  }

  ghost predicate Distinct(s: seq<string>) {
    forall i, j :: 0 <= i < j < |s| ==> s[i] != s[j]
  }

  ghost predicate FreshIds(db: Db, draws: seq<Draw>) {
    && (forall i, j :: 0 <= i < j < |draws| ==> draws[i].eventId != draws[j].eventId)
    && forall i :: 0 <= i < |draws| ==> !EventIdUsed(db.events, draws[i].eventId)
  }

  /** What recovering `runId` means: one legal transition, one new event at the end of its log. */
  ghost predicate Recovered(db: Db, db': Db, runId: string) {
    && runId in db.runs && runId in db'.runs
    && Interrupted in RunTransitions(db.runs[runId].status)
    && db'.runs[runId].status == Interrupted
    && db'.runs[runId].lastSequence == db.runs[runId].lastSequence + 1
    && LogKey(runId, db'.runs[runId].lastSequence) in db'.events
    && var e := db'.events[LogKey(runId, db'.runs[runId].lastSequence)];
       e.kind == RunType(Interrupted) && e.payload == "stale_worker_lease" && e.artifactRefs == []
  }

  /** The database after one performed step. */
  function Interrupt(db: Db, runId: string, d: Draw): Db
    requires runId in db.runs
  {
    var q := RecoveryRequest(db, runId, d);
    var n := db.runs[runId].lastSequence + 1;
    var run := AdvanceRun(db.runs[runId].entity, q.event, q.target);
    db.(runs := db.runs[runId := RunRow(Interrupted, n, run, d.now)],
        events := db.events[LogKey(runId, n) := q.event],
        idempotency := db.idempotency[IdempotencyKey(runId, AppendEventOp, RecoveryKey(n)) :=
          IdempotencyRow(q, RunResponse(run))])
  }

  ghost predicate Admits(sc: Schema, before: Db, runId: string, d: Draw)
    requires runId in before.runs
  {
    var e := RecoveryEvent(runId, before.runs[runId].lastSequence, d);
    sc.event(e) && sc.run(AdvanceRun(before.runs[runId].entity, e, Some(Interrupted)))
  }

  /** The generated events and the interrupted entities pass the schema. */
  ghost predicate SchemaAdmits(sc: Schema, before: Db, runs: seq<string>, draws: seq<Draw>)
    requires |draws| == |runs| && forall i :: 0 <= i < |runs| ==> runs[i] in before.runs
  {
    forall i :: 0 <= i < |runs| ==> Admits(sc, before, runs[i], draws[i])
  }

  /** One step of the loop when the key is free: the write is performed, and touches only its own run. */
  lemma RecoverPerforms(sc: Schema, db: Db, runId: string, d: Draw)
    requires GapFree(db) && runId in db.runs && InFlight(db.runs[runId].status)
    requires !EventIdUsed(db.events, d.eventId) && KeyFree(db, runId) && Admits(sc, db, runId, d)
    ensures var o := Write(sc, db, RecoveryRequest(db, runId, d),
            RecoveryKey(db.runs[runId].lastSequence + 1), d.now);
            o.reply.Ok? && o.db == Interrupt(db, runId, d)
  {
    var q := RecoveryRequest(db, runId, d);
    var n := db.runs[runId].lastSequence + 1;
    assert LogKey(runId, n) !in db.events;
    assert EventRefs(q.event) == {} && db.rows.refs + {} == db.rows.refs;
    assert InsertEvent(db, q.event) == Ok(db.(events := db.events[LogKey(runId, n) := q.event]));
    assert Precheck(sc, q).None?;
  }

  /** Every recorded request is in the log, so an unused event id belongs to no recorded request. */
  ghost predicate KeysLogged(db: Db) {
    forall k :: k in db.idempotency ==> EventIdUsed(db.events, db.idempotency[k].request.event.eventId)
  }

  lemma InvLogsKeys(db: Db)
    requires Inv(db)
    ensures KeysLogged(db)
  {
    forall k | k in db.idempotency
      ensures EventIdUsed(db.events, db.idempotency[k].request.event.eventId)
    {
      assert LogKey(k.runId, db.idempotency[k].request.event.sequence) in db.events;
    }
  }

  /** When a client has already spent the key, the step conflicts and changes nothing. */
  lemma RecoverConflicts(sc: Schema, db: Db, runId: string, d: Draw)
    requires KeysLogged(db) && runId in db.runs && !EventIdUsed(db.events, d.eventId) && !KeyFree(db, runId)
    ensures var q := RecoveryRequest(db, runId, d);
            var o := Write(sc, db, q, RecoveryKey(db.runs[runId].lastSequence + 1), d.now);
            o.db == db && o.reply == Err(if sc.event(q.event) then StateConflict else ContractError)
  {
    var k := IdempotencyKey(runId, AppendEventOp, RecoveryKey(db.runs[runId].lastSequence + 1));
    assert db.idempotency[k].request.event.eventId != d.eventId;
  }

  function Ids(runs: seq<string>): set<string> { set r | r in runs }

  /** The state after recovering a set of runs: exactly those moved, by one event each; nothing else changed. */
  ghost predicate RecoveredExactly(db: Db, db': Db, runs: set<string>) {
    && db'.runs.Keys == db.runs.Keys
    && (forall r :: r in runs ==> Recovered(db, db', r))
    && (forall r :: r in db.runs && r !in runs ==> db'.runs[r] == db.runs[r])
    && (forall k :: k in db.events ==> k in db'.events && db'.events[k] == db.events[k])
    && |db'.events| == |db.events| + |runs|
    && db'.stages == db.stages && db'.rows == db.rows
  }

  lemma InterruptKeepsLog(db: Db, runId: string, d: Draw)
    requires GapFree(db) && KeysLogged(db) && runId in db.runs
    ensures GapFree(Interrupt(db, runId, d)) && KeysLogged(Interrupt(db, runId, d))
  {
    var db' := Interrupt(db, runId, d);
    var slot := LogKey(runId, db.runs[runId].lastSequence + 1);
    assert slot !in db.events && db'.events[slot].eventId == d.eventId;
    forall k | k in db'.idempotency
      ensures EventIdUsed(db'.events, db'.idempotency[k].request.event.eventId)
    {
      if k in db.idempotency && db'.idempotency[k] == db.idempotency[k] {
        var j :| j in db.events && db.events[j].eventId == db.idempotency[k].request.event.eventId;
        assert db'.events[j] == db.events[j];
      }
    }
    forall r, n: nat | true
      ensures LogKey(r, n) in db'.events <==> r in db'.runs && 1 <= n <= db'.runs[r].lastSequence
    {
      assert LogKey(r, n) in db.events <==> r in db.runs && 1 <= n <= db.runs[r].lastSequence;
    }
  }

  /** What one performed step leaves for the rest of the loop. */
  lemma InterruptEffect(db: Db, runId: string, d: Draw)
    requires runId in db.runs && InFlight(db.runs[runId].status)
             && LogKey(runId, db.runs[runId].lastSequence + 1) !in db.events
    ensures RecoveredExactly(db, Interrupt(db, runId, d), {runId})
  {
    var db' := Interrupt(db, runId, d);
    assert Recovered(db, db', runId);
  }

  lemma InterruptKeepsFree(db: Db, runId: string, d: Draw, others: seq<string>, draws: seq<Draw>)
    requires runId in db.runs && (forall i :: 0 <= i < |others| ==> others[i] in db.runs && others[i] != runId)
    requires FreshIds(db, draws) && forall i :: 0 <= i < |draws| ==> draws[i].eventId != d.eventId
    ensures var db' := Interrupt(db, runId, d);
            && FreshIds(db', draws)
            && (forall i :: 0 <= i < |others| ==> others[i] in db'.runs && db'.runs[others[i]] == db.runs[others[i]])
            && (forall i :: 0 <= i < |others| ==> (KeyFree(db', others[i]) <==> KeyFree(db, others[i])))
  {
  }

  /** Recovering one run and then the others is recovering them all. */
  lemma RecoveredCompose(db: Db, mid: Db, db': Db, runId: string, rest: set<string>)
    requires RecoveredExactly(db, mid, {runId}) && RecoveredExactly(mid, db', rest) && runId !in rest
    ensures RecoveredExactly(db, db', {runId} + rest)
  {
    forall r | r in {runId} + rest
      ensures Recovered(db, db', r)
    {
      if r == runId {
        var slot := LogKey(r, mid.runs[r].lastSequence);
        assert slot in mid.events && db'.events[slot] == mid.events[slot] && db'.runs[r] == mid.runs[r];
      } else {
        assert Recovered(mid, db', r) && mid.runs[r] == db.runs[r];
      }
    }
    assert |{runId} + rest| == 1 + |rest|;
  }

  /** The first turn of the loop. */
  lemma RecoverTurn(sc: Schema, before: Db, db: Db, runs: seq<string>, draws: seq<Draw>)
    requires runs != [] && |draws| == |runs| && forall i :: 0 <= i < |runs| ==> runs[i] in before.runs
    ensures var o := Write(sc, db, RecoveryRequest(before, runs[0], draws[0]),
                           RecoveryKey(before.runs[runs[0]].lastSequence + 1), draws[0].now);
            var (db', rest) := Recover(sc, before, o.db, runs[1..], draws[1..]);
            Recover(sc, before, db, runs, draws) ==
              if o.reply.Err? then (o.db, Err(o.reply.error))
              else (db', if rest.Ok? then Ok([runs[0]] + rest.value) else rest)
  {
    hide Write, RecoveryKey, RecoveryRequest;
  }

  /** The loop after its first step succeeded. */
  lemma RecoverUnfolds(sc: Schema, before: Db, db: Db, runs: seq<string>, draws: seq<Draw>)
    requires GapFree(db) && runs != [] && |draws| == |runs| && !EventIdUsed(db.events, draws[0].eventId)
    requires forall i :: 0 <= i < |runs| ==> runs[i] in before.runs
    requires runs[0] in db.runs && before.runs[runs[0]] == db.runs[runs[0]] && InFlight(db.runs[runs[0]].status)
    requires KeyFree(db, runs[0]) && Admits(sc, before, runs[0], draws[0])
    ensures var (db', rest) :=
            Recover(sc, before, Interrupt(db, runs[0], draws[0]), runs[1..], draws[1..]);
            Recover(sc, before, db, runs, draws)
              == (db', if rest.Ok? then Ok([runs[0]] + rest.value) else rest)
  {
    hide Write, KeyFree, EventIdUsed, GapFree, Interrupt, RecoveryKey, Recover;
    RecoverPerforms(sc, db, runs[0], draws[0]);
    RecoverTurn(sc, before, db, runs, draws);
  }

  /** The loop when its first step conflicts. */
  lemma RecoverStops(sc: Schema, before: Db, db: Db, runs: seq<string>, draws: seq<Draw>)
    requires KeysLogged(db) && runs != [] && |draws| == |runs| && !EventIdUsed(db.events, draws[0].eventId)
    requires forall i :: 0 <= i < |runs| ==> runs[i] in before.runs
    requires runs[0] in db.runs && before.runs[runs[0]] == db.runs[runs[0]] && !KeyFree(db, runs[0])
    requires Admits(sc, before, runs[0], draws[0])
    ensures Recover(sc, before, db, runs, draws) == (db, Err(StateConflict))
  {
    hide Write, KeyFree, EventIdUsed, KeysLogged, RecoveryKey, Recover;
    RecoverConflicts(sc, db, runs[0], draws[0]);
    RecoverTurn(sc, before, db, runs, draws);
  }

  ghost predicate Listed(before: Db, db: Db, runs: seq<string>) {
    && Distinct(runs)
    && forall i :: 0 <= i < |runs| ==>
         && runs[i] in before.runs && runs[i] in db.runs
         && before.runs[runs[i]] == db.runs[runs[i]] && InFlight(db.runs[runs[i]].status)
  }

  /** What the loop needs still holds for the rest of its list. */
  lemma RestReady(sc: Schema, before: Db, db: Db, runs: seq<string>, draws: seq<Draw>)
    requires |draws| == |runs| && runs != [] && FreshIds(db, draws) && Listed(before, db, runs)
    requires SchemaAdmits(sc, before, runs, draws)
    ensures var db1 := Interrupt(db, runs[0], draws[0]);
            && FreshIds(db1, draws[1..]) && Listed(before, db1, runs[1..])
            && SchemaAdmits(sc, before, runs[1..], draws[1..])
  {
    InterruptKeepsFree(db, runs[0], draws[0], runs[1..], draws[1..]);
  }

  /** The position of the first listed run whose recovery key is already spent; the end of the list if there is none. */
  ghost function FirstSpent(db: Db, runs: seq<string>): (k: nat)
    requires forall i :: 0 <= i < |runs| ==> runs[i] in db.runs
    ensures k <= |runs| && (forall i :: 0 <= i < k ==> KeyFree(db, runs[i])) && (k < |runs| ==> !KeyFree(db, runs[k]))
  {
    if runs == [] || !KeyFree(db, runs[0]) then 0 else 1 + FirstSpent(db, runs[1..])
  }

  lemma {:induction false} SameFirstSpent(db: Db, db': Db, runs: seq<string>)
    requires forall i :: 0 <= i < |runs| ==>
      runs[i] in db.runs && runs[i] in db'.runs && (KeyFree(db, runs[i]) <==> KeyFree(db', runs[i]))
    ensures FirstSpent(db, runs) == FirstSpent(db', runs)
  {
    hide KeyFree;
    if runs != [] {
      SameFirstSpent(db, db', runs[1..]);
    }
  }

  lemma AllFree(db: Db, runs: seq<string>)
    requires forall i :: 0 <= i < |runs| ==> runs[i] in db.runs
    requires forall i :: 0 <= i < |runs| ==> KeyFree(db, runs[i])
    ensures FirstSpent(db, runs) == |runs|
  {
    hide KeyFree;
  }

  lemma RestFree(before: Db, db: Db, runs: seq<string>, d: Draw)
    requires runs != [] && Listed(before, db, runs) && KeyFree(db, runs[0])
    ensures var db1 := Interrupt(db, runs[0], d);
            Listed(before, db1, runs[1..]) && FirstSpent(db, runs) == 1 + FirstSpent(db1, runs[1..])
  {
    var rest := runs[1..];
    InterruptKeepsFree(db, runs[0], d, rest, []);
    hide KeyFree;
    SameFirstSpent(db, Interrupt(db, runs[0], d), rest);
  }

  lemma SetOfRest(runs: seq<string>)
    requires runs != [] && Distinct(runs)
    ensures [runs[0]] + runs[1..] == runs
    ensures runs[0] !in Ids(runs[1..]) && Ids(runs) == {runs[0]} + Ids(runs[1..])
  {
  }

  lemma RestSound(sc: Schema, before: Db, db: Db, runs: seq<string>, draws: seq<Draw>)
    requires GapFree(db) && KeysLogged(db) && |draws| == |runs| && FreshIds(db, draws) && Listed(before, db, runs)
    requires SchemaAdmits(sc, before, runs, draws) && runs != [] && KeyFree(db, runs[0])
    ensures var db1 := Interrupt(db, runs[0], draws[0]);
            && GapFree(db1) && KeysLogged(db1) && FreshIds(db1, draws[1..]) && Listed(before, db1, runs[1..])
            && SchemaAdmits(sc, before, runs[1..], draws[1..])
            && RecoveredExactly(db, db1, {runs[0]})
            && FirstSpent(db, runs) == 1 + FirstSpent(db1, runs[1..])
  {
    assert LogKey(runs[0], db.runs[runs[0]].lastSequence + 1) !in db.events;
    InterruptKeepsLog(db, runs[0], draws[0]);
    InterruptEffect(db, runs[0], draws[0]);
    RestReady(sc, before, db, runs, draws);
    RestFree(before, db, runs, draws[0]);
  }

  lemma RestCompose(db: Db, db1: Db, db': Db, runs: seq<string>, k: nat)
    requires runs != [] && Distinct(runs) && k < |runs|
    requires RecoveredExactly(db, db1, {runs[0]}) && RecoveredExactly(db1, db', Ids(runs[1..][..k]))
    ensures [runs[0]] + runs[1..] == runs && RecoveredExactly(db, db', Ids(runs[..k + 1]))
  {
    hide RecoveredExactly;
    var done := runs[..k + 1];
    assert done[1..] == runs[1..][..k];
    SetOfRest(done);
    RecoveredCompose(db, db1, db', done[0], Ids(done[1..]));
  }

  /**
   The loop stopped at the first listed run whose recovery key was already spent, with a conflict; the runs before
   it are recovered and nothing else has changed. Without such a run it succeeded, and recovered exactly the list.
   */
  ghost predicate RecoversPrefix(sc: Schema, before: Db, db: Db, runs: seq<string>, draws: seq<Draw>)
    requires |draws| == |runs| && Listed(before, db, runs)
  {
    var (db', reply) := Recover(sc, before, db, runs, draws);
    var k := FirstSpent(db, runs);
    reply == (if k == |runs| then Ok(runs) else Err(StateConflict)) && RecoveredExactly(db, db', Ids(runs[..k]))
  }

  lemma StopsAtOnce(sc: Schema, before: Db, db: Db, runs: seq<string>, draws: seq<Draw>)
    requires GapFree(db) && KeysLogged(db) && |draws| == |runs| && FreshIds(db, draws) && Listed(before, db, runs)
    requires SchemaAdmits(sc, before, runs, draws) && (runs != [] ==> !KeyFree(db, runs[0]))
    ensures RecoversPrefix(sc, before, db, runs, draws)
  {
    if runs != [] {
      RecoverStops(sc, before, db, runs, draws);
      hide Recover, KeyFree;
    }
    assert Ids(runs[..0]) == {};
  }

  lemma GoesOn(sc: Schema, before: Db, db: Db, runs: seq<string>, draws: seq<Draw>, db1: Db)
    requires |draws| == |runs| && Listed(before, db, runs) && runs != []
    requires Listed(before, db1, runs[1..]) && RecoversPrefix(sc, before, db1, runs[1..], draws[1..])
    requires RecoveredExactly(db, db1, {runs[0]}) && FirstSpent(db, runs) == 1 + FirstSpent(db1, runs[1..])
    requires var (db', rest) := Recover(sc, before, db1, runs[1..], draws[1..]);
             Recover(sc, before, db, runs, draws) == (db', if rest.Ok? then Ok([runs[0]] + rest.value) else rest)
    ensures RecoversPrefix(sc, before, db, runs, draws)
  {
    hide Recover, RecoveredExactly, KeyFree, FirstSpent, Ids;
    RestCompose(db, db1, Recover(sc, before, db1, runs[1..], draws[1..]).0, runs, FirstSpent(db1, runs[1..]));
  }

  lemma {:induction false} RecoverAll(sc: Schema, before: Db, db: Db, runs: seq<string>, draws: seq<Draw>)
    requires GapFree(db) && KeysLogged(db) && |draws| == |runs| && FreshIds(db, draws) && Listed(before, db, runs)
    requires SchemaAdmits(sc, before, runs, draws)
    ensures RecoversPrefix(sc, before, db, runs, draws)
    decreases |runs|
  {
    if runs == [] || !KeyFree(db, runs[0]) {
      StopsAtOnce(sc, before, db, runs, draws);
    } else {
      var db1 := Interrupt(db, runs[0], draws[0]);
      RecoverUnfolds(sc, before, db, runs, draws);
      RestSound(sc, before, db, runs, draws);
      hide Recover, Interrupt, GapFree, KeysLogged, FreshIds, SchemaAdmits, RecoveredExactly, KeyFree, FirstSpent,
        RecoversPrefix, Listed;
      RecoverAll(sc, before, db1, runs[1..], draws[1..]);
      GoesOn(sc, before, db, runs, draws, db1);
    }
  }

  // ---------------------------------------------------------------- reachable states

  lemma RecoveryKeyInjective(m: nat, n: nat)
    requires RecoveryKey(m) == RecoveryKey(n)
    ensures m == n
  {
    assert RecoveryKey(m)[9..] == Decimal.Text(m) && RecoveryKey(n)[9..] == Decimal.Text(n);
    Decimal.TextInjective(m, n);
  }

  /** A key of the form recovery-N is only ever sent with the event of sequence N, as recovery itself sends it. */
  ghost predicate HonestKey(a: Action) {
    a.Submit? && a.request.AppendEvent? ==> forall n: nat :: a.key == RecoveryKey(n) ==> n == a.request.event.sequence
  }

  ghost predicate HonestKeys(history: seq<Action>) {
    forall i :: 0 <= i < |history| ==> HonestKey(history[i])
  }

  lemma RecoveryIsHonest(before: Db, runId: string, d: Draw)
    requires runId in before.runs
    ensures HonestKey(Submit(RecoveryRequest(before, runId, d),
            RecoveryKey(before.runs[runId].lastSequence + 1), d.now))
  {
    forall n: nat | RecoveryKey(before.runs[runId].lastSequence + 1) == RecoveryKey(n)
      ensures n == before.runs[runId].lastSequence + 1
    {
      RecoveryKeyInjective(before.runs[runId].lastSequence + 1, n);
    }
  }

  /** Recovery keys on record name sequences that are already in the past. */
  ghost predicate KeysSpent(db: Db) {
    forall k, n: nat | k in db.idempotency && k.op == AppendEventOp && k.key == RecoveryKey(n) ::
      k.runId in db.runs && n <= db.runs[k.runId].lastSequence
  }

  lemma AdvanceKeepsSpent(db: Db, q: Request, key: string, response: Response, now: int, db': Db)
    requires KeysSpent(db) && Advances(db, q, key, response, db') && HonestKey(Submit(q, key, now))
    ensures KeysSpent(db')
  {
    hide RecoveryKey, GoodStage, RefsAvailable, EventRefs, EventIdUsed;
  }

  lemma {:induction false} KeysSpentAfter(sc: Schema, history: seq<Action>)
    requires HonestKeys(history)
    ensures KeysSpent(Replay(sc, EmptyDb, history))
  {
    if history != [] {
      var a := history[|history| - 1];
      var db := Replay(sc, EmptyDb, history[..|history| - 1]);
      KeysSpentAfter(sc, history[..|history| - 1]);
      ReplayKeepsInvariant(sc, history[..|history| - 1]);
      ActKeepsSpent(sc, db, a);
    }
  }

  lemma ActKeepsSpent(sc: Schema, db: Db, a: Action)
    requires Inv(db) && KeysSpent(db) && HonestKey(a)
    ensures KeysSpent(Act(sc, db, a))
  {
    hide Write, Advances, KeysSpent, GapFree, RowsAgree, StatusDiscipline, EventIdsDistinct, Accounted, HonestKey;
    if a.Submit? {
      WriteAdvances(sc, db, a.request, a.key, a.now);
      var o := Write(sc, db, a.request, a.key, a.now);
      if o.db != db {
        AdvanceKeepsSpent(db, a.request, a.key, o.reply.value, a.now, o.db);
      }
    } else {
      RowActionKeepsRest(sc, db, a);
      hide Act;
      SameKeysSpent(db, Act(sc, db, a));
    }
  }

  lemma SameKeysSpent(db: Db, db': Db)
    requires KeysSpent(db) && db'.idempotency == db.idempotency && db'.runs == db.runs
    ensures KeysSpent(db')
  {
    hide RecoveryKey;
  }

  /**
   Recovery in every reachable state: it moves exactly the stale in-flight runs to `interrupted`, each by a legal
   transition with exactly one new event, and leaves every other run unchanged.
   */
  lemma RecoveryTheorem(sc: Schema, history: seq<Action>, cutoff: int, runs: seq<string>, draws: seq<Draw>)
    requires HonestKeys(history)
    requires var db := Replay(sc, EmptyDb, history);
             && |draws| == |runs| && FreshIds(db, draws) && Distinct(runs)
             && (forall r :: r in runs <==>
                  r in db.runs && Interrupted in RunTransitions(db.runs[r].status) && db.runs[r].updatedAt < cutoff)
             && SchemaAdmits(sc, db, runs, draws)
    ensures var db := Replay(sc, EmptyDb, history);
            var (db', reply) := Recover(sc, db, db, runs, draws);
            && reply == Ok(runs)
            && RecoveredExactly(db, db', Ids(runs))
  {
    var db := Replay(sc, EmptyDb, history);
    ReadyToRecover(sc, history);
    AllFree(db, runs);
    forall i | 0 <= i < |runs|
      ensures runs[i] in db.runs && InFlight(db.runs[runs[i]].status)
    {
      assert runs[i] in runs;
      InFlightExactly(db.runs[runs[i]].status);
    }
    assert Listed(db, db, runs);
    hide Replay, KeyFree, GapFree, KeysLogged, FreshIds, SchemaAdmits, Recover, RecoveredExactly, HonestKeys,
      FirstSpent, Stale, Listed, Distinct;
    RecoverAll(sc, db, db, runs, draws);
    assert runs[..|runs|] == runs;
  }

  lemma ReadyToRecover(sc: Schema, history: seq<Action>)
    requires HonestKeys(history)
    ensures var db := Replay(sc, EmptyDb, history);
            GapFree(db) && KeysLogged(db) && forall r :: r in db.runs ==> KeyFree(db, r)
  {
    var db := Replay(sc, EmptyDb, history);
    ReplayKeepsInvariant(sc, history);
    InvLogsKeys(db);
    KeysSpentAfter(sc, history);
  }
}
