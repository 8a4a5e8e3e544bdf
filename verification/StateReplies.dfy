/**
 What a caller is told. For each of the four writes, sent for the first time in a reachable state: when it succeeds,
 with which error it fails otherwise, and on success the reply and the rows, field by field.
 */
module StateReplies {
  import opened Prelude
  import opened ArtifactRows
  import opened StateModel
  import opened StateInvariants

  // ---------------------------------------------------------------- the transition tables, by target

  /** In which statuses a run can be when it is moved to `t`. */
  function RunSources(t: Status): set<Status> {
    match t
    case Preflight => {Created}
    case AwaitingAuthority => {Preflight}
    case Queued => {Preflight, AwaitingAuthority, Interrupted}
    case Running => {Queued, Paused}
    case Pausing => {Running}
    case Paused => {Pausing}
    case Cancelling => {Running, Pausing, Paused}
    case Cancelled => {Created, Preflight, AwaitingAuthority, Queued, Running, Paused, Cancelling, Interrupted}
    case Failed => {Created, Preflight, AwaitingAuthority, Queued, Running, Pausing, Cancelling, Interrupted}
    case Interrupted => {Running, Pausing, Paused, Cancelling}
    case Completed => {Running}
    case CompletedNoFindings => {Running}
    case CompletedWithUnsupported => {Running}
    case _ => {}
  }

  /** The same for a stage: it waits for authority from the start, and completes or is cancelled by fewer ways. */
  function StageSources(t: Status): set<Status> {
    match t
    case AwaitingAuthority => {Created}
    case Queued => {Created, AwaitingAuthority, Interrupted}
    case Running => {Queued, Paused}
    case Pausing => {Running}
    case Paused => {Pausing}
    case Cancelling => {Running, Pausing, Paused}
    case Cancelled => {Created, AwaitingAuthority, Queued, Paused, Cancelling, Interrupted}
    case Failed => {Created, AwaitingAuthority, Queued, Running, Pausing, Cancelling, Interrupted}
    case Interrupted => {Running, Pausing, Paused, Cancelling}
    case Completed => {Running}
    case _ => {}
  }

  /** Created is never entered again, and a status of neither table is never entered or left. */
  lemma RunMovesByTarget(s: Status, t: Status)
    ensures t in RunTransitions(s) <==> s in RunSources(t)
  {
  }

  lemma StageMovesByTarget(s: Status, t: Status)
    ensures t in StageTransitions(s) <==> s in StageSources(t)
  {
  }

  // ---------------------------------------------------------------- counting the log

  /** How many events the log holds for a run. */
  ghost function EventCount(db: Db, runId: string): nat { |set k | k in db.events && k.runId == runId| }

  function Slots(runId: string, n: nat): (slots: set<LogKey>)
    ensures forall k :: k in slots <==> k.runId == runId && 1 <= k.sequence <= n
    ensures |slots| == n
  {
    if n == 0 then {} else Slots(runId, n - 1) + {LogKey(runId, n)}
  }

  /** On a gap-free log the counter of the row is the number of events. */
  lemma CountIsLast(db: Db, runId: string)
    requires GapFree(db) && runId in db.runs
    ensures EventCount(db, runId) == db.runs[runId].lastSequence
  {
    var last := db.runs[runId].lastSequence;
    forall k: LogKey | true
      ensures (k in db.events && k.runId == runId) <==> k in Slots(runId, last)
    {
      assert k == LogKey(k.runId, k.sequence);
    }
    assert (set k | k in db.events && k.runId == runId) == Slots(runId, last);
  }

  // ---------------------------------------------------------------- what makes a write acceptable

  /** The event is the next of its run. */
  ghost predicate Next(db: Db, e: Event) {
    e.runId in db.runs && e.sequence == EventCount(db, e.runId) + 1
  }

  /** Its id is new, and it names available artifacts only. */
  ghost predicate Loggable(db: Db, e: Event) {
    && (forall k :: k in db.events ==> db.events[k].eventId != e.eventId)
    && (forall a :: a in e.artifactRefs ==>
         a in db.rows.artifacts && db.rows.artifacts[a].complete && !db.rows.artifacts[a].quarantined)
  }

  /** The status `target` may follow: a move of the table, and the counters back a completion. */
  ghost predicate MayBecome(run: Run, target: Status) {
    && run.status in RunSources(target)
    && (target == Completed || target == CompletedNoFindings ==>
         && "performed" in run.counters && run.counters["performed"] > 0
         && ("unsupported" in run.counters ==> run.counters["unsupported"] == 0))
    && (target == CompletedWithUnsupported ==> "unsupported" in run.counters && run.counters["unsupported"] > 0)
  }

  /** The run after the event, field by field. */
  ghost predicate Follows(run: Run, e: Event, target: Option<Status>, run': Run) {
    && run'.runId == run.runId && run'.counters == run.counters && run'.details == run.details
    && run'.lastSequence == e.sequence
    && run'.status == (if target.Some? then target.value else run.status)
    && run'.startedAt == (if target == Some(Running) && run.startedAt == None then Some(e.occurredAt)
                          else run.startedAt)
    && run'.terminalAt == (if target.Some? && target.value in {Completed, CompletedNoFindings, CompletedWithUnsupported,
                                                              Failed, Cancelled}
                           then Some(e.occurredAt) else run.terminalAt)
  }

  ghost predicate SchemaTakes(sc: Schema, run: Run, e: Event, target: Option<Status>) {
    exists run' :: Follows(run, e, target, run') && sc.run(run')
  }

  lemma FollowsAdvance(run: Run, e: Event, target: Option<Status>, run': Run)
    ensures Follows(run, e, target, run') <==> run' == AdvanceRun(run, e, target)
  {
  }

  lemma SchemaTakesAdvance(sc: Schema, run: Run, e: Event, target: Option<Status>)
    ensures SchemaTakes(sc, run, e, target) <==> sc.run(AdvanceRun(run, e, target))
  {
    hide AdvanceRun, Follows;
    FollowsAdvance(run, e, target, AdvanceRun(run, e, target));
    forall run' | Follows(run, e, target, run')
      ensures run' == AdvanceRun(run, e, target)
    {
      FollowsAdvance(run, e, target, run');
    }
  }

  lemma MayBecomeIs(run: Run, target: Status)
    ensures MayBecome(run, target) <==> target in RunTransitions(run.status) && CompletionEvidence(run, target)
  {
    RunMovesByTarget(run.status, target);
  }

  /** `_insert_event` in a reachable state, for the next event of a run or the first of a new one. */
  lemma InsertExactly(db: Db, e: Event)
    requires LogKey(e.runId, e.sequence) !in db.events
    ensures InsertEvent(db, e) == if Loggable(db, e)
      then Ok(db.(events := db.events[LogKey(e.runId, e.sequence) := e],
                  rows := db.rows.(refs := db.rows.refs + EventRefs(e))))
      else Err(StateConflict)
  {
    hide EventRefs;
    assert EventIdUsed(db.events, e.eventId) <==> !forall k :: k in db.events ==> db.events[k].eventId != e.eventId;
    assert RefsAvailable(db.rows, e.artifactRefs) <==> forall a :: a in e.artifactRefs ==> db.rows.LiveRow(a);
  }

  /** What every accepted write, sent under the key `k`, leaves in the tables of events, references and keys. */
  ghost predicate Logged(db: Db, q: Request, k: IdempotencyKey, reply: Response, db': Db) {
    && db'.events == db.events[LogKey(q.event.runId, q.event.sequence) := q.event]
    && db'.rows == Rows(db.rows.artifacts, db.rows.refs + EventRefs(q.event))
    && db'.idempotency == db.idempotency[k := IdempotencyRow(q, reply)]
  }

  // ---------------------------------------------------------------- create_run

  ghost predicate CreatesRun(sc: Schema, db: Db, run: Run, e: Event) {
    && sc.run(run) && sc.event(e)
    && run.status == Created && run.lastSequence == 0
    && e.runId == run.runId && e.sequence == 1 && e.kind == RunType(Created)
    && run.runId !in db.runs && Loggable(db, e)
  }

  lemma CreateRunExactly(sc: Schema, db: Db, run: Run, e: Event, key: string, now: int)
    requires Inv(db) && IdempotencyKey(run.runId, CreateRunOp, key) !in db.idempotency
    ensures var o := Write(sc, db, CreateRun(run, e), key, now);
            && (o.reply.Ok? <==> CreatesRun(sc, db, run, e))
            && (o.reply.Err? ==>
                 && o.db == db
                 && o.reply.error == if sc.run(run) && sc.event(e) then StateConflict else ContractError)
            && (o.reply.Ok? ==>
                 && o.reply.value == RunResponse(run.(lastSequence := 1))
                 && o.db.runs == db.runs[run.runId := RunRow(Created, 1, run.(lastSequence := 1), now)]
                 && o.db.stages == db.stages
                 && Logged(db, CreateRun(run, e), IdempotencyKey(run.runId, CreateRunOp, key), o.reply.value, o.db))
  {
    hide Inv, EventRefs, InsertEvent, Loggable;
    var db1 := db.(runs := db.runs[run.runId := RunRow(Created, 1, run.(lastSequence := 1), now)]);
    NewRunIsEmpty(db, run.runId, e.sequence);
    if run.runId !in db.runs && e.runId == run.runId {
      InsertExactly(db1, e);
      LoggableSame(db, db1, e);
    }
  }

  lemma NewRunIsEmpty(db: Db, runId: string, n: nat)
    requires Inv(db)
    ensures runId !in db.runs ==> LogKey(runId, n) !in db.events
  {
  }

  lemma LoggableSame(db: Db, db': Db, e: Event)
    requires db'.events == db.events && db'.rows == db.rows
    ensures Loggable(db', e) <==> Loggable(db, e)
  {
  }

  // ---------------------------------------------------------------- append_event

  /** Everything but the schema of the new run and the event's own id and artifacts. */
  ghost predicate Appendable(db: Db, e: Event, target: Option<Status>) {
    && (target.Some? ==> e.kind == RunType(target.value))
    && Next(db, e)
    && (target.Some? ==> MayBecome(db.runs[e.runId].entity, target.value))
  }

  /**
   An event, with or without a target status, is accepted exactly if it is appendable and loggable and the schema
   takes it and the run it leads to; the reply is that run.
   */
  lemma AppendExactly(sc: Schema, db: Db, e: Event, target: Option<Status>, key: string, now: int)
    requires Inv(db) && IdempotencyKey(e.runId, AppendEventOp, key) !in db.idempotency
    ensures var o := Write(sc, db, AppendEvent(e, target), key, now);
            && (o.reply.Ok? <==> sc.event(e) && Appendable(db, e, target) && Loggable(db, e)
                                 && SchemaTakes(sc, db.runs[e.runId].entity, e, target))
            && (o.reply.Err? ==>
                 && o.db == db
                 && o.reply.error == if sc.event(e) && (Appendable(db, e, target) ==>
                                                          SchemaTakes(sc, db.runs[e.runId].entity, e, target))
                                     then StateConflict else ContractError)
            && (o.reply.Ok? ==> AppendReplies(db, e, target, key, now, o))
  {
    hide Inv, Appendable, SchemaTakes, InsertEvent, Loggable, EventRefs, AdvanceRun, RunTransitions, Next,
      CompletionEvidence, Follows;
    AppendTests(sc, db, e, target);
    if e.runId in db.runs {
      FollowsAdvance(db.runs[e.runId].entity, e, target, AdvanceRun(db.runs[e.runId].entity, e, target));
      if e.sequence == db.runs[e.runId].lastSequence + 1 {
        InsertExactly(db, e);
      }
    }
  }

  /** The reply is the entity of the new row, and follows the old one. */
  ghost predicate AppendReplies(db: Db, e: Event, target: Option<Status>, key: string, now: int, o: Outcome)
    requires o.reply.Ok? && e.runId in db.runs
  {
    && e.runId in o.db.runs
    && var run' := o.db.runs[e.runId].entity;
       && o.reply.value == RunResponse(run')
       && Follows(db.runs[e.runId].entity, e, target, run')
       && o.db.runs == db.runs[e.runId := RunRow(run'.status, run'.lastSequence, run', now)]
       && o.db.stages == db.stages
       && Logged(db, AppendEvent(e, target), IdempotencyKey(e.runId, AppendEventOp, key), o.reply.value, o.db)
  }

  /** The tests of the transaction, one by one, and the counter of the new run. */
  lemma AppendTests(sc: Schema, db: Db, e: Event, target: Option<Status>)
    requires Inv(db)
    ensures Appendable(db, e, target)
       <==> && (target.Some? ==> e.kind == RunType(target.value))
            && e.runId in db.runs && e.sequence == db.runs[e.runId].lastSequence + 1
            && (target.Some? ==>
                 && target.value in RunTransitions(db.runs[e.runId].status)
                 && CompletionEvidence(db.runs[e.runId].entity, target.value))
    ensures e.runId in db.runs ==>
      var run := db.runs[e.runId].entity;
      && (SchemaTakes(sc, run, e, target) <==> sc.run(AdvanceRun(run, e, target)))
      && AdvanceRun(run, e, target).lastSequence == e.sequence
      && (e.sequence == db.runs[e.runId].lastSequence + 1 ==> LogKey(e.runId, e.sequence) !in db.events)
  {
    hide RunTransitions, CompletionEvidence, MayBecome, SchemaTakes;
    NextSame(db, e);
    if e.runId in db.runs {
      SchemaTakesAdvance(sc, db.runs[e.runId].entity, e, target);
      if target.Some? {
        MayBecomeIs(db.runs[e.runId].entity, target.value);
      }
    }
  }

  // ---------------------------------------------------------------- stages

  /** A stage event moves nothing of its run but the counter. */
  function Counted(run: Run, e: Event): Run {
    Run(run.runId, run.status, e.sequence, run.counters, run.startedAt, run.terminalAt, run.details)
  }

  /** What both stage operations do to the run. */
  ghost predicate RunCounted(db: Db, e: Event, now: int, db': Db)
    requires e.runId in db.runs
  {
    var row := db.runs[e.runId];
    db'.runs == db.runs[e.runId := RunRow(row.status, e.sequence, Counted(row.entity, e), now)]
  }

  ghost predicate CanCreateStage(db: Db, stage: Stage, e: Event) {
    && stage.state == Created && e.kind == StageType(Created) && e.runId == stage.runId
    && Next(db, e) && stage.stageId !in db.stages
    && db.runs[e.runId].status !in {Completed, CompletedNoFindings, CompletedWithUnsupported, Failed, Cancelled}
  }

  lemma CreateStageExactly(sc: Schema, db: Db, stage: Stage, e: Event, key: string, now: int)
    requires Inv(db) && IdempotencyKey(stage.runId, CreateStageOp, key) !in db.idempotency
    ensures var o := Write(sc, db, CreateStage(stage, e), key, now);
            && (o.reply.Ok? <==> sc.stage(stage) && sc.event(e) && CanCreateStage(db, stage, e) && Loggable(db, e)
                                 && sc.run(Counted(db.runs[e.runId].entity, e)))
            && (o.reply.Err? ==>
                 && o.db == db
                 && o.reply.error == if sc.stage(stage) && sc.event(e)
                                        && (CanCreateStage(db, stage, e) ==>
                                              sc.run(Counted(db.runs[e.runId].entity, e)))
                                     then StateConflict else ContractError)
            && (o.reply.Ok? ==>
                 && o.reply.value == StageResponse(stage) && RunCounted(db, e, now, o.db)
                 && o.db.stages == db.stages[stage.stageId := StageRow(stage.runId, Created, stage, now)]
                 && Logged(db, CreateStage(stage, e), IdempotencyKey(stage.runId, CreateStageOp, key), o.reply.value,
                           o.db))
  {
    hide Inv, InsertEvent, Loggable, EventRefs, Next, Counted;
    NextSame(db, e);
    if Next(db, e) {
      CountedIs(db.runs[e.runId].entity, e);
      var db1 := db.(stages := db.stages[stage.stageId := StageRow(stage.runId, Created, stage, now)]);
      InsertExactly(db1, e);
      LoggableSame(db, db1, e);
    }
  }

  lemma CountedIs(run: Run, e: Event)
    ensures Counted(run, e) == run.(lastSequence := e.sequence)
  {
  }

  lemma NextSame(db: Db, e: Event)
    requires Inv(db)
    ensures Next(db, e) <==> e.runId in db.runs && e.sequence == db.runs[e.runId].lastSequence + 1
    ensures Next(db, e) ==> LogKey(e.runId, e.sequence) !in db.events
  {
    if e.runId in db.runs {
      CountIsLast(db, e.runId);
    }
  }

  ghost predicate CanTransition(db: Db, stageId: string, e: Event, target: Status) {
    && e.kind == StageType(target)
    && stageId in db.stages && db.stages[stageId].entity.runId == e.runId
    && db.stages[stageId].entity.state in StageSources(target)
    && Next(db, e)
  }

  function Moved(stage: Stage, target: Status): Stage { Stage(stage.stageId, stage.runId, target, stage.details) }

  ghost predicate TransitionTakes(sc: Schema, db: Db, stageId: string, e: Event, target: Status)
    requires stageId in db.stages && e.runId in db.runs
  {
    sc.stage(Moved(db.stages[stageId].entity, target)) && sc.run(Counted(db.runs[e.runId].entity, e))
  }

  lemma TransitionExactly(sc: Schema, db: Db, stageId: string, e: Event, target: Status, key: string, now: int)
    requires Inv(db) && IdempotencyKey(e.runId, TransitionStageOp, key) !in db.idempotency
    ensures var o := Write(sc, db, TransitionStage(stageId, e, target), key, now);
            && (o.reply.Ok? <==> sc.event(e) && CanTransition(db, stageId, e, target) && Loggable(db, e)
                                 && TransitionTakes(sc, db, stageId, e, target))
            && (o.reply.Err? ==>
                 && o.db == db
                 && o.reply.error == if sc.event(e) && (CanTransition(db, stageId, e, target) ==>
                                                          TransitionTakes(sc, db, stageId, e, target))
                                     then StateConflict else ContractError)
            && (o.reply.Ok? ==>
                 var stage := Moved(db.stages[stageId].entity, target);
                 && o.reply.value == StageResponse(stage) && RunCounted(db, e, now, o.db)
                 && o.db.stages == db.stages[stageId := StageRow(e.runId, target, stage, now)]
                 && Logged(db, TransitionStage(stageId, e, target), IdempotencyKey(e.runId, TransitionStageOp, key),
                           o.reply.value, o.db))
  {
    hide Inv, InsertEvent, Loggable, EventRefs, Next, Counted, Moved, StageTransitions, CanTransition;
    NextSame(db, e);
    TransitionTests(db, stageId, e, target);
    if Next(db, e) {
      InsertExactly(db, e);
    }
  }

  /** The tests of the transaction, one by one, and the entities it writes. */
  lemma TransitionTests(db: Db, stageId: string, e: Event, target: Status)
    requires Inv(db)
    ensures CanTransition(db, stageId, e, target)
       <==> && e.kind == StageType(target) && stageId in db.stages && db.stages[stageId].runId == e.runId
            && target in StageTransitions(db.stages[stageId].state) && Next(db, e)
    ensures stageId in db.stages ==>
      db.stages[stageId].entity.(state := target) == Moved(db.stages[stageId].entity, target)
    ensures e.runId in db.runs ==>
      db.runs[e.runId].entity.(lastSequence := e.sequence) == Counted(db.runs[e.runId].entity, e)
  {
    hide GapFree, EventIdsDistinct, StatusDiscipline, RefsHeld, Accounted, Next, StageTransitions, StageSources;
    if stageId in db.stages {
      StageMovesByTarget(db.stages[stageId].state, target);
    }
  }

  // ---------------------------------------------------------------- artifact rows

  /** Of the four other transactions: each changes the artifact tables as its statement says, and nothing else. */
  lemma RowActionsExactly(sc: Schema, db: Db, a: Action)
    requires !a.Submit?
    ensures Act(sc, db, a) == db.(rows := Act(sc, db, a).rows)
    ensures var rows, rows' := db.rows, Act(sc, db, a).rows;
            match a
            case RegisterArtifact(id, cls, media, size, path, pinned, retention) =>
              var r := Register(rows, id, cls, media, size, path, pinned, retention);
              rows' == if r.Ok? then r.value else rows
            case AddArtifactRef(ref) =>
              rows' == if ref.id in rows.artifacts then Rows(rows.artifacts, rows.refs + {ref}) else rows
            case QuarantineArtifact(id) =>
              && rows'.refs == rows.refs && rows'.artifacts.Keys == rows.artifacts.Keys && !rows'.LiveRow(id)
              && forall i :: i in rows.artifacts && i != id ==> rows'.artifacts[i] == rows.artifacts[i]
            case DeleteArtifact(id) =>
              rows' == if rows.Protected(id) then rows else Rows(rows.artifacts - {id}, rows.refs)
            case Submit(_, _, _) => true
  {
    hide Register;
    if a.DeleteArtifact? && a.id !in db.rows.artifacts {
      assert db.rows.artifacts - {a.id} == db.rows.artifacts;
    }
  }
}
