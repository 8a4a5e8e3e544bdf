/** Properties of whole histories of the state store: exactly-once writes and the status walk of a run. */
module StateHistories {
  import opened Prelude
  import opened ArtifactRows
  import opened StateModel
  import opened StateInvariants

  lemma {:induction false} ReplayConcat(sc: Schema, db: Db, first: seq<Action>, second: seq<Action>)
    ensures Replay(sc, db, first + second) == Replay(sc, Replay(sc, db, first), second)
  {
    var both := first + second;
    if second == [] {
      assert both == first;
    } else {
      assert both[..|both| - 1] == first + second[..|second| - 1];
      ReplayConcat(sc, db, first, second[..|second| - 1]);
    }
  }

  /** Once recorded, an idempotency row survives every later history unchanged. */
  lemma {:induction false} IdempotencyKept(sc: Schema, db: Db, history: seq<Action>, k: IdempotencyKey)
    requires Inv(db) && k in db.idempotency
    ensures var db' := Replay(sc, db, history);
            Inv(db') && k in db'.idempotency && db'.idempotency[k] == db.idempotency[k]
  {
    if history != [] {
      IdempotencyKept(sc, db, history[..|history| - 1], k);
      var mid := Replay(sc, db, history[..|history| - 1]);
      ActKeepsInvariant(sc, mid, history[|history| - 1]);
      ActKeepsLog(sc, mid, history[|history| - 1]);
    }
  }

  /** A successful write is on record, whether it was performed now or replayed. */
  lemma SuccessIsRecorded(sc: Schema, db: Db, q: Request, key: string, now: int)
    requires Write(sc, db, q, key, now).reply.Ok?
    ensures var o := Write(sc, db, q, key, now);
            var k := IdempotencyKey(q.RunId(), q.Op(), key);
            && Precheck(sc, q).None? && k in o.db.idempotency
            && o.db.idempotency[k] == IdempotencyRow(q, o.reply.value)
  {
  }

  /**
   Exactly once. However many transactions come between, a later copy of a successful request gets the
   original response, and removing the copy from the history changes no later state.
   */
  lemma ExactlyOnce(sc: Schema, before: seq<Action>, q: Request, key: string, now: int,
                    between: seq<Action>, now': int, after: seq<Action>)
    requires Write(sc, Replay(sc, EmptyDb, before), q, key, now).reply.Ok?
    ensures var original := Write(sc, Replay(sc, EmptyDb, before), q, key, now);
            var copy := Write(sc, Replay(sc, original.db, between), q, key, now');
            copy.reply == original.reply && copy.db == Replay(sc, original.db, between)
    ensures Replay(sc, EmptyDb, before + [Submit(q, key, now)] + between + [Submit(q, key, now')] + after)
         == Replay(sc, EmptyDb, before + [Submit(q, key, now)] + between + after)
  {
    var db := Replay(sc, EmptyDb, before);
    var original := Write(sc, db, q, key, now);
    var mid := Replay(sc, original.db, between);
    ReplayKeepsInvariant(sc, before);
    ActKeepsInvariant(sc, db, Submit(q, key, now));
    SuccessIsRecorded(sc, db, q, key, now);
    IdempotencyKept(sc, original.db, between, IdempotencyKey(q.RunId(), q.Op(), key));
    assert Write(sc, mid, q, key, now').db == mid;
    OneStep(sc, db, Submit(q, key, now));
    OneStep(sc, mid, Submit(q, key, now'));
    ReplayConcat(sc, EmptyDb, before, [Submit(q, key, now)]);
    ReplayConcat(sc, EmptyDb, before + [Submit(q, key, now)], between);
    ReplayConcat(sc, EmptyDb, before + [Submit(q, key, now)] + between, [Submit(q, key, now')]);
    ReplayConcat(sc, EmptyDb, before + [Submit(q, key, now)] + between + [Submit(q, key, now')], after);
    ReplayConcat(sc, EmptyDb, before + [Submit(q, key, now)] + between, after);
  }

  lemma OneStep(sc: Schema, db: Db, a: Action)
    ensures Replay(sc, db, [a]) == Act(sc, db, a)
  {
    assert [a][..0] == [];
    assert Replay(sc, db, []) == db;
  }

  /** Reusing the key of a successful request with a different body fails and changes nothing. */
  lemma ReuseConflicts(sc: Schema, before: seq<Action>, q: Request, key: string, now: int,
                       between: seq<Action>, other: Request, now': int)
    requires Write(sc, Replay(sc, EmptyDb, before), q, key, now).reply.Ok?
    requires other != q && other.RunId() == q.RunId() && other.Op() == q.Op()
    ensures var db := Replay(sc, Write(sc, Replay(sc, EmptyDb, before), q, key, now).db, between);
            var o := Write(sc, db, other, key, now');
            o.db == db && o.reply == Err(if Precheck(sc, other).Some? then Precheck(sc, other).value else StateConflict)
  {
    var db := Replay(sc, EmptyDb, before);
    ReplayKeepsInvariant(sc, before);
    ActKeepsInvariant(sc, db, Submit(q, key, now));
    SuccessIsRecorded(sc, db, q, key, now);
    IdempotencyKept(sc, Write(sc, db, q, key, now).db, between, IdempotencyKey(q.RunId(), q.Op(), key));
  }

  // ---------------------------------------------------------------- the status walk

  ghost predicate LegalMove(from: Option<Status>, to: Option<Status>) {
    match (from, to)
    case (None, None) => true
    case (None, Some(t)) => t == Created
    case (Some(f), Some(t)) => t == f || t in RunTransitions(f)
    case (Some(_), None) => false
  }

  function StatusOf(db: Db, runId: string): Option<Status> {
    if runId in db.runs then Some(db.runs[runId].status) else None
  }

  /** What a successful request does to the status of its run. */
  lemma PerformMovesLegally(sc: Schema, db: Db, q: Request, now: int, runId: string)
    requires RowsAgree(db) && Precheck(sc, q).None? && Perform(sc, db, q, now).Ok?
    ensures LegalMove(StatusOf(db, runId), StatusOf(Perform(sc, db, q, now).value.0, runId))
  {
    hide EventIdUsed, RefsAvailable, EventRefs, CompletionEvidence, RunTransitions, StageTransitions;
    match q
    case CreateRun(run, e) => hide PerformAppend, PerformCreateStage, PerformTransition;
    case AppendEvent(e, t) =>
      hide PerformCreateRun, PerformCreateStage, PerformTransition;
      assert AdvanceRun(db.runs[e.runId].entity, e, t).status == if t.Some? then t.value else db.runs[e.runId].status;
    case CreateStage(stage, e) => hide PerformCreateRun, PerformAppend, PerformTransition;
    case TransitionStage(stageId, e, t) => hide PerformCreateRun, PerformAppend, PerformCreateStage;
  }

  lemma WriteMovesLegally(sc: Schema, db: Db, q: Request, key: string, now: int, runId: string)
    requires RowsAgree(db)
    ensures LegalMove(StatusOf(db, runId), StatusOf(Write(sc, db, q, key, now).db, runId))
  {
    hide Perform, RowsAgree, Precheck, RunTransitions;
    if Precheck(sc, q).None? && Perform(sc, db, q, now).Ok? {
      PerformMovesLegally(sc, db, q, now, runId);
    }
  }

  lemma ActMovesLegally(sc: Schema, db: Db, a: Action, runId: string)
    requires RowsAgree(db)
    ensures LegalMove(StatusOf(db, runId), StatusOf(Act(sc, db, a), runId))
  {
    hide Write, RunTransitions;
    match a
    case Submit(q, key, now) => WriteMovesLegally(sc, db, q, key, now, runId);
    case _ => assert Act(sc, db, a).runs == db.runs;
  }

  lemma RowsAgreeAfter(sc: Schema, history: seq<Action>)
    ensures RowsAgree(Replay(sc, EmptyDb, history))
  {
    ReplayKeepsInvariant(sc, history);
  }

  /** The last action of any history moves every run legally. */
  lemma LastActionMovesLegally(sc: Schema, history: seq<Action>, runId: string)
    requires history != []
    ensures LegalMove(StatusOf(Replay(sc, EmptyDb, history[..|history| - 1]), runId),
                      StatusOf(Replay(sc, EmptyDb, history), runId))
  {
    hide Act, LegalMove;
    RowsAgreeAfter(sc, history[..|history| - 1]);
    ActMovesLegally(sc, Replay(sc, EmptyDb, history[..|history| - 1]), history[|history| - 1], runId);
  }

  lemma TerminalHasNoMoves(s: Status)
    requires RunTransitions(s) != {}
    ensures !Terminal(s)
  {
  }

  lemma TerminalStays(from: Option<Status>, to: Option<Status>)
    requires from.Some? && Terminal(from.value) && LegalMove(from, to)
    ensures to == from
  {
  }

  /** The distinct statuses a run takes over a history, oldest first. */
  ghost function StatusWalk(sc: Schema, history: seq<Action>, runId: string): seq<Status> {
    if history == [] then []
    else
      var walk := StatusWalk(sc, history[..|history| - 1], runId);
      var now := StatusOf(Replay(sc, EmptyDb, history), runId);
      if now.None? || (walk != [] && walk[|walk| - 1] == now.value) then walk else walk + [now.value]
  }

  /** A walk from `created` along RUN_TRANSITIONS that ends in the current status; terminal statuses are final. */
  lemma {:induction false} StatusWalkIsLegal(sc: Schema, history: seq<Action>, runId: string)
    ensures var walk := StatusWalk(sc, history, runId);
            var now := StatusOf(Replay(sc, EmptyDb, history), runId);
            && (walk == [] <==> now.None?)
            && (walk != [] ==> walk[0] == Created && now == Some(walk[|walk| - 1]))
            && (forall i :: 0 <= i < |walk| - 1 ==> walk[i + 1] in RunTransitions(walk[i]) && !Terminal(walk[i]))
  {
    hide Replay, Terminal, RunTransitions;
    if history == [] {
      ReplayNothing(sc, EmptyDb);
    } else {
      StatusWalkIsLegal(sc, history[..|history| - 1], runId);
      LastActionMovesLegally(sc, history, runId);
      var walk := StatusWalk(sc, history[..|history| - 1], runId);
      if walk != [] && RunTransitions(walk[|walk| - 1]) != {} {
        TerminalHasNoMoves(walk[|walk| - 1]);
      }
    }
  }

  /** A terminal status never changes, whatever the rest of the history does. */
  lemma {:induction false} TerminalIsFinal(sc: Schema, before: seq<Action>, after: seq<Action>, runId: string)
    requires var s := StatusOf(Replay(sc, EmptyDb, before), runId); s.Some? && Terminal(s.value)
    ensures StatusOf(Replay(sc, EmptyDb, before + after), runId) == StatusOf(Replay(sc, EmptyDb, before), runId)
  {
    hide Replay, Terminal, LegalMove;
    if after == [] {
      assert before + after == before;
    } else {
      TerminalIsFinal(sc, before, after[..|after| - 1], runId);
      assert (before + after)[..|before + after| - 1] == before + after[..|after| - 1];
      LastActionMovesLegally(sc, before + after, runId);
      TerminalStays(StatusOf(Replay(sc, EmptyDb, before), runId), StatusOf(Replay(sc, EmptyDb, before + after), runId));
    }
  }

  // ---------------------------------------------------------------- what a run and a stage keep

  /** A run keeps its identity, counters and details; it starts at most once; its log only grows. */
  ghost predicate Continues(run: Run, run': Run) {
    && run'.runId == run.runId && run'.counters == run.counters && run'.details == run.details
    && (run.startedAt.Some? ==> run'.startedAt == run.startedAt)
    && run.lastSequence <= run'.lastSequence
  }

  /** A stage keeps its run and moves along STAGE_TRANSITIONS. */
  ghost predicate StageContinues(stage: StageRow, stage': StageRow) {
    stage'.runId == stage.runId && (stage'.state == stage.state || stage'.state in StageTransitions(stage.state))
  }

  ghost predicate EntitiesContinue(db: Db, db': Db) {
    && (forall r :: r in db.runs ==> r in db'.runs && Continues(db.runs[r].entity, db'.runs[r].entity))
    && (forall s :: s in db.stages ==> s in db'.stages && StageContinues(db.stages[s], db'.stages[s]))
    && (forall s :: s in db'.stages && s !in db.stages ==> db'.stages[s].state == Created)
  }

  lemma InsertKeepsRest(db: Db, e: Event)
    ensures InsertEvent(db, e).Ok? ==>
      InsertEvent(db, e).value.runs == db.runs && InsertEvent(db, e).value.stages == db.stages
  {
    hide EventIdUsed, RefsAvailable, EventRefs;
  }

  lemma AppendContinues(sc: Schema, db: Db, e: Event, t: Option<Status>, now: int)
    requires RowsAgree(db) && PerformAppend(sc, db, e, t, now).Ok?
    ensures EntitiesContinue(db, PerformAppend(sc, db, e, t, now).value.0)
  {
    hide InsertEvent, CompletionEvidence, RunTransitions, StageTransitions;
    InsertKeepsRest(db, e);
    assert Continues(db.runs[e.runId].entity, AdvanceRun(db.runs[e.runId].entity, e, t));
  }

  lemma TransitionContinues(sc: Schema, db: Db, stageId: string, e: Event, t: Status, now: int)
    requires RowsAgree(db) && PerformTransition(sc, db, stageId, e, t, now).Ok?
    ensures EntitiesContinue(db, PerformTransition(sc, db, stageId, e, t, now).value.0)
  {
    hide InsertEvent, StageTransitions;
    InsertKeepsRest(db, e);
  }

  lemma CreateContinues(sc: Schema, db: Db, q: Request, now: int)
    requires RowsAgree(db) && (q.CreateRun? || q.CreateStage?) && Perform(sc, db, q, now).Ok?
    ensures EntitiesContinue(db, Perform(sc, db, q, now).value.0)
  {
    hide InsertEvent, StageTransitions, PerformAppend, PerformTransition;
    match q
    case CreateRun(run, e) =>
      InsertKeepsRest(db.(runs := db.runs[run.runId := RunRow(Created, 1, run.(lastSequence := 1), now)]), e);
    case CreateStage(stage, e) =>
      InsertKeepsRest(db.(stages := db.stages[stage.stageId := StageRow(stage.runId, Created, stage, now)]), e);
  }

  lemma PerformContinues(sc: Schema, db: Db, q: Request, now: int)
    requires RowsAgree(db) && Perform(sc, db, q, now).Ok?
    ensures EntitiesContinue(db, Perform(sc, db, q, now).value.0)
  {
    hide EntitiesContinue, RowsAgree, PerformCreateRun, PerformAppend, PerformCreateStage, PerformTransition;
    match q
    case AppendEvent(e, t) => AppendContinues(sc, db, e, t, now);
    case TransitionStage(stageId, e, t) => TransitionContinues(sc, db, stageId, e, t, now);
    case _ => CreateContinues(sc, db, q, now);
  }

  lemma SameEntities(db: Db, db': Db, next: Db)
    requires EntitiesContinue(db, db') && next.runs == db'.runs && next.stages == db'.stages
    ensures EntitiesContinue(db, next)
  {
  }

  lemma Unmoved(db: Db, next: Db)
    requires next.runs == db.runs && next.stages == db.stages
    ensures EntitiesContinue(db, next)
  {
    hide StageTransitions;
  }

  /** Every transaction lets every run and every stage continue, and new stages start as created. */
  lemma ActContinues(sc: Schema, db: Db, a: Action)
    requires Inv(db)
    ensures EntitiesContinue(db, Act(sc, db, a))
  {
    hide Register, AddRef, Quarantine, DeleteRow, Perform, Precheck, EntitiesContinue, RowsAgree, GapFree,
      EventIdsDistinct, StatusDiscipline, RefsHeld, Accounted;
    var next := Act(sc, db, a);
    if a.Submit? && next != db {
      PerformContinues(sc, db, a.request, a.now);
      SameEntities(db, Perform(sc, db, a.request, a.now).value.0, next);
    } else {
      Unmoved(db, next);
    }
  }

  /** Over any later history a run is never dropped, restarted or given other counters. */
  lemma {:induction false} RunContinues(sc: Schema, before: seq<Action>, after: seq<Action>, runId: string)
    requires runId in Replay(sc, EmptyDb, before).runs
    ensures runId in Replay(sc, EmptyDb, before + after).runs
    ensures Continues(Replay(sc, EmptyDb, before).runs[runId].entity,
            Replay(sc, EmptyDb, before + after).runs[runId].entity)
  {
    hide Act, Inv, StageContinues;
    if after == [] {
      assert before + after == before;
    } else {
      var n := |after| - 1;
      RunContinues(sc, before, after[..n], runId);
      assert (before + after)[..|before + after| - 1] == before + after[..n];
      ReplayKeepsInvariant(sc, before + after[..n]);
      ActContinues(sc, Replay(sc, EmptyDb, before + after[..n]), after[n]);
    }
  }

  // ---------------------------------------------------------------- histories that leave a run alone

  ghost predicate SameLog(db: Db, db': Db, runId: string) {
    forall n: nat :: (LogKey(runId, n) in db'.events <==> LogKey(runId, n) in db.events)
      && (LogKey(runId, n) in db.events ==> db'.events[LogKey(runId, n)] == db.events[LogKey(runId, n)])
  }

  /** Nothing about the run is different. */
  ghost predicate Untouched(db: Db, db': Db, runId: string)
    requires runId in db.runs
  {
    runId in db'.runs && db'.runs[runId] == db.runs[runId] && SameLog(db, db', runId)
  }

  lemma AdvanceUntouched(db: Db, q: Request, key: string, response: Response, db': Db, runId: string)
    requires Advances(db, q, key, response, db') && runId in db.runs
    ensures Untouched(db, db', runId)
            || (runId in db'.runs && db.runs[runId].lastSequence < db'.runs[runId].lastSequence)
  {
    hide GoodStage, EventIdUsed, RefsAvailable, EventRefs;
  }

  /** A transaction leaves a run untouched or lengthens its log. */
  lemma ActUntouched(sc: Schema, db: Db, a: Action, runId: string)
    requires Inv(db) && runId in db.runs
    ensures var db' := Act(sc, db, a);
            Untouched(db, db', runId)
              || (runId in db'.runs && db.runs[runId].lastSequence < db'.runs[runId].lastSequence)
  {
    hide Write, Advances, GapFree, RowsAgree, StatusDiscipline, EventIdsDistinct, Accounted;
    hide Register, AddRef, Quarantine, DeleteRow;
    if a.Submit? {
      var o := Write(sc, db, a.request, a.key, a.now);
      WriteAdvances(sc, db, a.request, a.key, a.now);
      if o.db != db {
        AdvanceUntouched(db, a.request, a.key, o.reply.value, o.db, runId);
      }
    } else {
      RowActionKeepsRest(sc, db, a);
    }
  }

  /** A history at whose end the run has no more events than before has left it untouched throughout. */
  lemma {:induction false} QuietHistory(sc: Schema, db: Db, history: seq<Action>, runId: string)
    requires Inv(db) && runId in db.runs
    ensures var db' := Replay(sc, db, history);
            && Inv(db') && runId in db'.runs && db.runs[runId].lastSequence <= db'.runs[runId].lastSequence
            && (db.runs[runId].lastSequence == db'.runs[runId].lastSequence ==> Untouched(db, db', runId))
            && db.rows.refs <= db'.rows.refs
  {
    hide Act, Inv;
    if history != [] {
      var n := |history| - 1;
      var mid := Replay(sc, db, history[..n]);
      QuietHistory(sc, db, history[..n], runId);
      ActKeepsInvariant(sc, mid, history[n]);
      ActUntouched(sc, mid, history[n], runId);
      ActKeepsLog(sc, mid, history[n]);
    }
  }

  lemma ReplayNothing(sc: Schema, db: Db)
    ensures Replay(sc, db, []) == db
  {
  }
}
