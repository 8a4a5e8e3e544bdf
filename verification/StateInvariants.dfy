/**
 What every transaction keeps: a gap-free log per run, rows that agree with the entities they store,
 the status discipline, and one idempotency row per logged event. The main lemma is
 `ReplayKeepsInvariant`: all of it holds in every state reachable from the empty database.
 */
module StateInvariants {
  import opened Prelude
  import opened ArtifactRows
  import opened StateModel

  /** Each run's events carry exactly the sequences 1 to last_sequence. */
  ghost predicate GapFree(db: Db) {
    && (forall r, n: nat :: LogKey(r, n) in db.events <==> r in db.runs && 1 <= n <= db.runs[r].lastSequence)
    && (forall k :: k in db.events ==> LogKey(db.events[k].runId, db.events[k].sequence) == k)
  }

  ghost predicate EventIdsDistinct(db: Db) {
    forall j, k :: j in db.events && k in db.events && db.events[j].eventId == db.events[k].eventId ==> j == k
  }

  /** The columns of a row repeat what its stored entity says. */
  ghost predicate RowsAgree(db: Db) {
    && (forall r :: r in db.runs ==>
          var row := db.runs[r];
          row.entity.runId == r && row.entity.status == row.status && row.entity.lastSequence == row.lastSequence)
    && (forall s :: s in db.stages ==>
          var row := db.stages[s];
          row.entity.stageId == s && row.entity.runId == row.runId && row.entity.state == row.state
            && row.runId in db.runs)
  }

  /** Statuses that only a started run can have. */
  predicate ImpliesStarted(s: Status) {
    s in {Running, Pausing, Paused, Cancelling, Interrupted, Completed, CompletedNoFindings, CompletedWithUnsupported}
  }

  ghost predicate Disciplined(run: Run) {
    && !run.status.UnknownStatus?
    && (ImpliesStarted(run.status) ==> run.startedAt.Some?)
    && (Terminal(run.status) ==> run.terminalAt.Some?)
    && CompletionEvidence(run, run.status)
  }

  ghost predicate StatusDiscipline(db: Db) {
    forall r :: r in db.runs ==> Disciplined(db.runs[r].entity)
  }

  /** Every artifact a logged event names is referenced by that event, so it can never be collected. */
  ghost predicate RefsHeld(db: Db) {
    && db.rows.Constrained()
    && (forall k :: k in db.events ==> EventRefs(db.events[k]) <= db.rows.refs)
  }

  /** Every idempotency row is about an event in the log. */
  ghost predicate RequestsLogged(db: Db) {
    forall k :: k in db.idempotency ==>
      var q := db.idempotency[k].request;
      && k.runId == q.RunId() && k.op == q.Op() && q.event.runId == k.runId
      && LogKey(k.runId, q.event.sequence) in db.events
      && db.events[LogKey(k.runId, q.event.sequence)] == q.event
  }

  ghost predicate RequestsApart(db: Db) {
    forall j, k | j in db.idempotency && k in db.idempotency ::
      db.idempotency[j].request.event == db.idempotency[k].request.event ==> j == k
  }

  /** Exactly-once accounting: idempotency rows and logged events correspond one to one. */
  ghost predicate Accounted(db: Db) {
    RequestsLogged(db) && RequestsApart(db) && |db.idempotency| == |db.events|
  }

  ghost predicate Inv(db: Db) {
    GapFree(db) && EventIdsDistinct(db) && RowsAgree(db) && StatusDiscipline(db) && RefsHeld(db) && Accounted(db)
  }

  /**
   The shape of every successful first-time write: one event at the end of one run's log, that run's row
   advanced to it, at most one stage row touched, the event's references added, one idempotency row.
   */
  ghost predicate Advances(db: Db, q: Request, key: string, response: Response, db': Db) {
    var e := q.event;
    var slot := LogKey(e.runId, e.sequence);
    var k := IdempotencyKey(q.RunId(), q.Op(), key);
    && e.runId == q.RunId()
    && e.sequence == (if e.runId in db.runs then db.runs[e.runId].lastSequence else 0) + 1
    && !EventIdUsed(db.events, e.eventId)
    && slot !in db.events
    && db'.events == db.events[slot := e]
    && e.runId in db'.runs
    && db'.runs == db.runs[e.runId := db'.runs[e.runId]]
    && GoodRow(e.runId, e.sequence, db'.runs[e.runId])
    && (db'.stages == db.stages || exists s :: GoodStage(db, s, e.runId, db'))
    && RefsAvailable(db.rows, e.artifactRefs)
    && db'.rows == Rows(db.rows.artifacts, db.rows.refs + EventRefs(e))
    && k !in db.idempotency
    && db'.idempotency == db.idempotency[k := IdempotencyRow(q, response)]
  }

  ghost predicate GoodRow(runId: string, sequence: nat, row: RunRow) {
    && row.lastSequence == sequence
    && row.entity.runId == runId && row.entity.status == row.status && row.entity.lastSequence == sequence
    && Disciplined(row.entity)
  }

  ghost predicate GoodStage(db: Db, s: string, runId: string, db': Db) {
    && s in db'.stages
    && db'.stages == db.stages[s := db'.stages[s]]
    && var row := db'.stages[s];
       row.entity.stageId == s && row.entity.runId == row.runId && row.entity.state == row.state && row.runId == runId
  }

  lemma AdvanceIsDisciplined(run: Run, event: Event, target: Status)
    requires Disciplined(run) && target in RunTransitions(run.status) && CompletionEvidence(run, target)
    ensures Disciplined(AdvanceRun(run, event, Some(target)))
  {
  }

  lemma CreateRunAdvances(sc: Schema, db: Db, q: Request, key: string, now: int)
    requires Inv(db) && q.CreateRun? && Precheck(sc, q).None?
    requires IdempotencyKey(q.RunId(), q.Op(), key) !in db.idempotency && Perform(sc, db, q, now).Ok?
    ensures var o := Write(sc, db, q, key, now); o.reply.Ok? && Advances(db, q, key, o.reply.value, o.db)
  {
    var db' := Write(sc, db, q, key, now).db;
    assert db'.runs[q.event.runId] == RunRow(Created, 1, q.run.(lastSequence := 1), now);
    assert GoodRow(q.event.runId, q.event.sequence, db'.runs[q.event.runId]);
  }

  lemma AppendAdvances(sc: Schema, db: Db, q: Request, key: string, now: int)
    requires Inv(db) && q.AppendEvent? && Precheck(sc, q).None?
    requires IdempotencyKey(q.RunId(), q.Op(), key) !in db.idempotency && Perform(sc, db, q, now).Ok?
    ensures var o := Write(sc, db, q, key, now); o.reply.Ok? && Advances(db, q, key, o.reply.value, o.db)
  {
    hide Accounted, EventIdsDistinct, RefsHeld, RunTransitions, EventRefs, EventIdUsed;
    var row := db.runs[q.event.runId];
    if q.target.Some? {
      AdvanceIsDisciplined(row.entity, q.event, q.target.value);
    }
    assert GoodRow(q.event.runId, q.event.sequence, Write(sc, db, q, key, now).db.runs[q.event.runId]);
  }

  lemma CreateStageAdvances(sc: Schema, db: Db, q: Request, key: string, now: int)
    requires Inv(db) && q.CreateStage? && Precheck(sc, q).None?
    requires IdempotencyKey(q.RunId(), q.Op(), key) !in db.idempotency && Perform(sc, db, q, now).Ok?
    ensures var o := Write(sc, db, q, key, now); o.reply.Ok? && Advances(db, q, key, o.reply.value, o.db)
  {
    hide Accounted, EventIdsDistinct, RefsHeld, EventRefs, EventIdUsed;
    var db' := Write(sc, db, q, key, now).db;
    assert GoodRow(q.event.runId, q.event.sequence, db'.runs[q.event.runId]);
    assert GoodStage(db, q.stage.stageId, q.event.runId, db');
  }

  lemma TransitionAdvances(sc: Schema, db: Db, q: Request, key: string, now: int)
    requires Inv(db) && q.TransitionStage? && Precheck(sc, q).None?
    requires IdempotencyKey(q.RunId(), q.Op(), key) !in db.idempotency && Perform(sc, db, q, now).Ok?
    ensures var o := Write(sc, db, q, key, now); o.reply.Ok? && Advances(db, q, key, o.reply.value, o.db)
  {
    hide Accounted, EventIdsDistinct, RefsHeld, EventRefs, EventIdUsed;
    var db' := Write(sc, db, q, key, now).db;
    assert GoodRow(q.event.runId, q.event.sequence, db'.runs[q.event.runId]);
    assert GoodStage(db, q.stageId, q.event.runId, db');
  }

  /** A write either leaves the database alone or advances it. */
  lemma WriteAdvances(sc: Schema, db: Db, q: Request, key: string, now: int)
    requires Inv(db)
    ensures var o := Write(sc, db, q, key, now);
            o.db == db || (o.reply.Ok? && Advances(db, q, key, o.reply.value, o.db))
  {
    if Precheck(sc, q).None? && IdempotencyKey(q.RunId(), q.Op(), key) !in db.idempotency
      && Perform(sc, db, q, now).Ok? {
      match q
      case CreateRun(_, _) => CreateRunAdvances(sc, db, q, key, now);
      case AppendEvent(_, _) => AppendAdvances(sc, db, q, key, now);
      case CreateStage(_, _) => CreateStageAdvances(sc, db, q, key, now);
      case TransitionStage(_, _, _) => TransitionAdvances(sc, db, q, key, now);
    }
  }

  lemma AdvanceGapFree(db: Db, q: Request, key: string, response: Response, db': Db)
    requires GapFree(db) && Advances(db, q, key, response, db')
    ensures GapFree(db')
  {
    forall r, n: nat | true
      ensures LogKey(r, n) in db'.events <==> r in db'.runs && 1 <= n <= db'.runs[r].lastSequence
    {
      assert LogKey(r, n) in db.events <==> r in db.runs && 1 <= n <= db.runs[r].lastSequence;
    }
  }

  lemma AdvanceRows(db: Db, q: Request, key: string, response: Response, db': Db)
    requires RowsAgree(db) && StatusDiscipline(db) && Advances(db, q, key, response, db')
    ensures RowsAgree(db') && StatusDiscipline(db')
  {
  }

  lemma AdvanceRefs(db: Db, q: Request, key: string, response: Response, db': Db)
    requires RefsHeld(db) && EventIdsDistinct(db) && Advances(db, q, key, response, db')
    ensures RefsHeld(db') && EventIdsDistinct(db')
  {
  }

  lemma AdvanceLogged(db: Db, q: Request, key: string, response: Response, db': Db)
    requires RequestsLogged(db) && Advances(db, q, key, response, db')
    ensures RequestsLogged(db')
  {
    hide GoodRow, GoodStage, EventIdUsed, RefsAvailable, EventRefs;
  }

  lemma AdvanceApart(db: Db, q: Request, key: string, response: Response, db': Db)
    requires RequestsLogged(db) && RequestsApart(db) && Advances(db, q, key, response, db')
    ensures RequestsApart(db')
  {
    hide GoodRow, GoodStage, RefsAvailable, EventRefs;
    forall j | j in db.idempotency
      ensures db.idempotency[j].request.event != q.event
    {
      assert LogKey(j.runId, db.idempotency[j].request.event.sequence) in db.events;
    }
    hide RequestsLogged;
  }

  lemma AdvanceAccounted(db: Db, q: Request, key: string, response: Response, db': Db)
    requires Accounted(db) && Advances(db, q, key, response, db')
    ensures Accounted(db')
  {
    hide GoodRow, GoodStage, EventIdUsed, RefsAvailable, EventRefs, RequestsLogged, RequestsApart;
    AdvanceLogged(db, q, key, response, db');
    AdvanceApart(db, q, key, response, db');
  }

  lemma AdvanceKeepsInvariant(db: Db, q: Request, key: string, response: Response, db': Db)
    requires Inv(db) && Advances(db, q, key, response, db')
    ensures Inv(db')
  {
    hide Advances, GapFree, RowsAgree, StatusDiscipline, RefsHeld, EventIdsDistinct, Accounted;
    AdvanceGapFree(db, q, key, response, db');
    AdvanceRows(db, q, key, response, db');
    AdvanceRefs(db, q, key, response, db');
    AdvanceAccounted(db, q, key, response, db');
  }

  /** The UNIQUE(run_id, sequence) index never fires: the sequence check already guarantees it. */
  lemma NeverConstraintError(sc: Schema, db: Db, q: Request, key: string, now: int)
    requires GapFree(db)
    ensures Write(sc, db, q, key, now).reply != Err(ConstraintError)
  {
    var r := q.event.runId;
    assert LogKey(r, (if r in db.runs then db.runs[r].lastSequence else 0) + 1) !in db.events;
    match q
    case CreateRun(run, e) =>
      assert Precheck(sc, q).None? ==> PerformCreateRun(db, run, e, now) != Err(ConstraintError);
    case AppendEvent(e, t) =>
      assert PerformAppend(sc, db, e, t, now) != Err(ConstraintError);
    case CreateStage(stage, e) =>
      assert Precheck(sc, q).None? ==> PerformCreateStage(sc, db, stage, e, now) != Err(ConstraintError);
    case TransitionStage(stageId, e, t) =>
      assert PerformTransition(sc, db, stageId, e, t, now) != Err(ConstraintError);
  }

  /** The artifact transactions touch artifact rows only, and drop no reference. */
  lemma RowActionKeepsRest(sc: Schema, db: Db, a: Action)
    requires db.rows.Constrained() && !a.Submit?
    ensures var db' := Act(sc, db, a);
            db' == db.(rows := db'.rows) && db'.rows.Constrained() && db.rows.refs <= db'.rows.refs
  {
    hide Write;
  }

  lemma RowActionKeepsInvariant(db: Db, rows: Rows)
    requires Inv(db) && rows.Constrained() && db.rows.refs <= rows.refs
    ensures Inv(db.(rows := rows))
  {
  }

  lemma ActKeepsInvariant(sc: Schema, db: Db, a: Action)
    requires Inv(db)
    ensures Inv(Act(sc, db, a))
  {
    hide Write, Advances, GapFree, RowsAgree, StatusDiscipline, EventIdsDistinct, Accounted, Register, AddRef,
      Quarantine, DeleteRow;
    match a
    case Submit(q, key, now) =>
      var o := Write(sc, db, q, key, now);
      WriteAdvances(sc, db, q, key, now);
      if o.db != db {
        AdvanceKeepsInvariant(db, q, key, o.reply.value, o.db);
      }
    case _ =>
      RowActionKeepsRest(sc, db, a);
      RowActionKeepsInvariant(db, Act(sc, db, a).rows);
  }

  lemma {:induction false} ReplayKeepsInvariant(sc: Schema, history: seq<Action>)
    ensures Inv(Replay(sc, EmptyDb, history))
  {
    if history != [] {
      ReplayKeepsInvariant(sc, history[..|history| - 1]);
      ActKeepsInvariant(sc, Replay(sc, EmptyDb, history[..|history| - 1]), history[|history| - 1]);
    }
  }

  /** Nothing logged is rewritten and no reference is dropped. */
  ghost predicate KeepsLog(db: Db, db': Db) {
    && db.rows.refs <= db'.rows.refs
    && (forall k :: k in db.events ==> k in db'.events && db'.events[k] == db.events[k])
    && (forall k :: k in db.idempotency ==> k in db'.idempotency && db'.idempotency[k] == db.idempotency[k])
  }

  lemma AdvanceKeepsLog(db: Db, q: Request, key: string, response: Response, db': Db)
    requires Advances(db, q, key, response, db')
    ensures KeepsLog(db, db')
  {
    hide GoodRow, GoodStage, EventIdUsed, RefsAvailable;
  }

  lemma ActKeepsLog(sc: Schema, db: Db, a: Action)
    requires Inv(db)
    ensures KeepsLog(db, Act(sc, db, a))
  {
    hide Write, Advances, GapFree, RowsAgree, StatusDiscipline, EventIdsDistinct, Accounted, Register, AddRef,
      Quarantine, DeleteRow;
    if a.Submit? {
      var o := Write(sc, db, a.request, a.key, a.now);
      WriteAdvances(sc, db, a.request, a.key, a.now);
      if o.db != db {
        AdvanceKeepsLog(db, a.request, a.key, o.reply.value, o.db);
      }
    } else {
      RowActionKeepsRest(sc, db, a);
    }
  }

  /** An artifact named by a logged event stays registered and protected through every later history. */
  lemma {:induction false} LoggedArtifactsStay(sc: Schema, db: Db, history: seq<Action>, k: LogKey, id: ArtifactId)
    requires Inv(db) && k in db.events && id in db.events[k].artifactRefs
    ensures var db' := Replay(sc, db, history);
            && Inv(db') && k in db'.events && db'.events[k] == db.events[k]
            && id in db'.rows.artifacts && db'.rows.Protected(id)
  {
    hide Act, GapFree, RowsAgree, StatusDiscipline, EventIdsDistinct, Accounted;
    if history != [] {
      LoggedArtifactsStay(sc, db, history[..|history| - 1], k, id);
      var mid := Replay(sc, db, history[..|history| - 1]);
      ActKeepsInvariant(sc, mid, history[|history| - 1]);
      ActKeepsLog(sc, mid, history[|history| - 1]);
    }
    var db' := Replay(sc, db, history);
    var i :| 0 <= i < |db.events[k].artifactRefs| && db.events[k].artifactRefs[i] == id;
    assert Ref(id, "event", db'.events[k].eventId) in EventRefs(db'.events[k]);
  }
}
