/**
 The state store as an object: its tables are fields, each operation is one transaction that writes step by
 step and rolls everything back when a later step fails. Every method is proved against the function of
 `StateModel` that specifies it.
 */
module StateStores {
  import opened Prelude
  import opened ArtifactRows
  import M = StateModel
  import opened StateModel
  import opened TextOrder
  import opened Recovery

  class StateStore {
    const schema: Schema
    var runs: map<string, RunRow>
    var events: map<LogKey, Event>
    var stages: map<string, StageRow>
    var idempotency: map<IdempotencyKey, IdempotencyRow>
    var artifacts: map<ArtifactId, Row>
    var refs: set<Ref>

    constructor (schema: Schema)
      ensures this.schema == schema && View() == EmptyDb
    {
      this.schema := schema;
      runs, events, stages, idempotency := map[], map[], map[], map[];
      artifacts, refs := map[], {};
    }

    function View(): Db
      reads this
    {
      Db(runs, events, stages, idempotency, Rows(artifacts, refs))
    }

    /** ROLLBACK: restore what the transaction found. */
    method Rollback(saved: Db)
      modifies this
      ensures View() == saved
    {
      runs, events, stages, idempotency := saved.runs, saved.events, saved.stages, saved.idempotency;
      artifacts, refs := saved.rows.artifacts, saved.rows.refs;
    }

    /** What is found is the answer: whenever it comes, the request gets that reply and the database stays as it is. */
    method FindReplay(q: Request, key: string) returns (found: Option<Reply>)
      ensures found.None? <==> IdempotencyKey(q.RunId(), q.Op(), key) !in idempotency
      ensures found.Some? && Precheck(schema, q).None? ==>
        forall now :: Write(schema, View(), q, key, now) == Outcome(View(), found.value)
    {
      var k := IdempotencyKey(q.RunId(), q.Op(), key);
      if k in idempotency {
        var row := idempotency[k];
        if row.request != q {
          return Some(Err(StateConflict));
        }
        return Some(Ok(row.response));
      }
      return None;
    }

    method InsertEvent(e: Event) returns (failure: Option<Failure>)
      modifies `events, `refs
      ensures failure.None? ==> M.InsertEvent(old(View()), e) == Ok(View())
      ensures failure.Some? ==> M.InsertEvent(old(View()), e) == Err(failure.value) && View() == old(View())
    {
      if EventIdUsed(events, e.eventId) {
        return Some(StateConflict);
      }
      var i := 0;
      while i < |e.artifactRefs|
        invariant 0 <= i <= |e.artifactRefs|
        invariant forall j :: 0 <= j < i ==> View().rows.LiveRow(e.artifactRefs[j])
        invariant View() == old(View())
      {
        var id := e.artifactRefs[i];
        if id !in artifacts || !artifacts[id].Live() {
          return Some(StateConflict);
        }
        i := i + 1;
      }
      var key := LogKey(e.runId, e.sequence);
      if key in events {
        return Some(ConstraintError);
      }
      events := events[key := e];
      i := 0;
      while i < |e.artifactRefs|
        invariant 0 <= i <= |e.artifactRefs|
        invariant refs == old(refs) + (set j | 0 <= j < i :: Ref(e.artifactRefs[j], "event", e.eventId))
        invariant events == old(events)[key := e]
      {
        refs := refs + {Ref(e.artifactRefs[i], "event", e.eventId)};
        i := i + 1;
      }
      return None;
    }

    method CreateRun(run: Run, event: Event, key: string, now: int) returns (reply: Reply)
      modifies this
      ensures Outcome(View(), reply) == Write(schema, old(View()), M.CreateRun(run, event), key, now)
    {
      var q := M.CreateRun(run, event);
      if !schema.run(run) || !schema.event(event) {
        return Err(ContractError);
      }
      if run.status != Created || run.lastSequence != 0 {
        return Err(StateConflict);
      }
      if event.runId != run.runId || event.sequence != 1 || event.kind != RunType(Created) {
        return Err(StateConflict);
      }
      var response := run.(lastSequence := 1);
      var saved := View();
      var existing := FindReplay(q, key);
      if existing.Some? {
        return existing.value;
      }
      if run.runId in runs {
        return Err(StateConflict);
      }
      runs := runs[run.runId := RunRow(Created, 1, response, now)];
      var failure := InsertEvent(event);
      if failure.Some? {
        Rollback(saved);
        return Err(failure.value);
      }
      idempotency := idempotency[IdempotencyKey(run.runId, CreateRunOp, key) :=
        IdempotencyRow(q, RunResponse(response))];
      return Ok(RunResponse(response));
    }

    method AppendEvent(event: Event, target: Option<Status>, key: string, now: int) returns (reply: Reply)
      modifies this
      ensures Outcome(View(), reply) == Write(schema, old(View()), M.AppendEvent(event, target), key, now)
    {
      var q := M.AppendEvent(event, target);
      if !schema.event(event) {
        return Err(ContractError);
      }
      if target.Some? && event.kind != RunType(target.value) {
        return Err(StateConflict);
      }
      var existing := FindReplay(q, key);
      if existing.Some? {
        return existing.value;
      }
      if event.runId !in runs {
        return Err(StateConflict);
      }
      var row := runs[event.runId];
      if event.sequence != row.lastSequence + 1 {
        return Err(StateConflict);
      }
      var run := row.entity;
      if target.Some? {
        if target.value !in RunTransitions(row.status) {
          return Err(StateConflict);
        }
        run := run.(status := target.value);
        if !CompletionEvidence(run, target.value) {
          return Err(StateConflict);
        }
      }
      run := run.(lastSequence := event.sequence);
      if target == Some(Running) && run.startedAt.None? {
        run := run.(startedAt := Some(event.occurredAt));
      }
      if target.Some? && Terminal(target.value) {
        run := run.(terminalAt := Some(event.occurredAt));
      }
      if !schema.run(run) {
        return Err(ContractError);
      }
      var saved := View();
      var failure := InsertEvent(event);
      if failure.Some? {
        Rollback(saved);
        return Err(failure.value);
      }
      runs := runs[event.runId := RunRow(run.status, run.lastSequence, run, now)];
      idempotency := idempotency[IdempotencyKey(event.runId, AppendEventOp, key) :=
        IdempotencyRow(q, RunResponse(run))];
      return Ok(RunResponse(run));
    }

    method CreateStage(stage: Stage, event: Event, key: string, now: int) returns (reply: Reply)
      modifies this
      ensures Outcome(View(), reply) == Write(schema, old(View()), M.CreateStage(stage, event), key, now)
    {
      var q := M.CreateStage(stage, event);
      if !schema.stage(stage) || !schema.event(event) {
        return Err(ContractError);
      }
      if stage.state != Created || event.kind != StageType(Created) || event.runId != stage.runId {
        return Err(StateConflict);
      }
      var existing := FindReplay(q, key);
      if existing.Some? {
        return existing.value;
      }
      if stage.runId !in runs {
        return Err(StateConflict);
      }
      var row := runs[stage.runId];
      if Terminal(row.status) || event.sequence != row.lastSequence + 1 || stage.stageId in stages {
        return Err(StateConflict);
      }
      var run := row.entity.(lastSequence := event.sequence);
      if !schema.run(run) {
        return Err(ContractError);
      }
      var saved := View();
      stages := stages[stage.stageId := StageRow(stage.runId, Created, stage, now)];
      var failure := InsertEvent(event);
      if failure.Some? {
        Rollback(saved);
        return Err(failure.value);
      }
      runs := runs[stage.runId := RunRow(row.status, event.sequence, run, now)];
      idempotency := idempotency[IdempotencyKey(stage.runId, CreateStageOp, key) :=
        IdempotencyRow(q, StageResponse(stage))];
      return Ok(StageResponse(stage));
    }

    method TransitionStage(stageId: string, event: Event, target: Status, key: string, now: int) returns (reply: Reply)
      modifies this
      ensures Outcome(View(), reply) == Write(schema, old(View()), M.TransitionStage(stageId, event, target), key, now)
    {
      var q := M.TransitionStage(stageId, event, target);
      if !schema.event(event) {
        return Err(ContractError);
      }
      if event.kind != StageType(target) {
        return Err(StateConflict);
      }
      var existing := FindReplay(q, key);
      if existing.Some? {
        return existing.value;
      }
      if stageId !in stages || stages[stageId].runId != event.runId {
        return Err(StateConflict);
      }
      var stageRow := stages[stageId];
      if target !in StageTransitions(stageRow.state) || event.runId !in runs {
        return Err(StateConflict);
      }
      var row := runs[event.runId];
      if event.sequence != row.lastSequence + 1 {
        return Err(StateConflict);
      }
      var stage := stageRow.entity.(state := target);
      if !schema.stage(stage) {
        return Err(ContractError);
      }
      var run := row.entity.(lastSequence := event.sequence);
      if !schema.run(run) {
        return Err(ContractError);
      }
      var saved := View();
      var failure := InsertEvent(event);
      if failure.Some? {
        Rollback(saved);
        return Err(failure.value);
      }
      stages := stages[stageId := StageRow(stageRow.runId, target, stage, now)];
      runs := runs[event.runId := RunRow(row.status, event.sequence, run, now)];
      idempotency := idempotency[IdempotencyKey(event.runId, TransitionStageOp, key) :=
        IdempotencyRow(q, StageResponse(stage))];
      return Ok(StageResponse(stage));
    }

    // -------------------------------------------------------------- artifact rows

    method RegisterArtifact(id: ArtifactId, cls: string, media: string, size: nat, path: Path, pinned: bool,
                            retention: Option<int>) returns (failure: Option<RowError>)
      modifies `artifacts
      ensures var r := Register(old(View()).rows, id, cls, media, size, path, pinned, retention);
              if r.Ok? then failure == None && Rows(artifacts, refs) == r.value
              else failure == Some(r.error) && artifacts == old(artifacts)
    {
      if id in artifacts {
        var row := artifacts[id];
        if row.cls != cls || row.media != media || row.size != size || row.path != path || !row.Live() {
          return Some(MetadataConflict);
        }
        if pinned {
          artifacts := artifacts[id := row.(pinned := true)];
        }
        return None;
      }
      if exists i :: i in artifacts && artifacts[i].path == path {
        return Some(ConstraintFailed);
      }
      artifacts := artifacts[id := Row(cls, media, size, path, true, false, pinned, retention)];
      return None;
    }

    method AddArtifactRef(ref: Ref) returns (failure: Option<RowError>)
      modifies `refs
      ensures var r := AddRef(old(View()).rows, ref);
              if r.Ok? then failure == None && Rows(artifacts, refs) == r.value
              else failure == Some(r.error) && refs == old(refs)
    {
      if ref.id !in artifacts {
        return Some(ConstraintFailed);
      }
      refs := refs + {ref};
      return None;
    }

    method QuarantineArtifact(id: ArtifactId) returns (failure: Option<RowError>)
      modifies `artifacts
      ensures var r := Quarantine(old(View()).rows, id);
              if r.Ok? then failure == None && Rows(artifacts, refs) == r.value
              else failure == Some(r.error) && artifacts == old(artifacts)
    {
      if id !in artifacts {
        return Some(NoSuchArtifact);
      }
      artifacts := artifacts[id := artifacts[id].(complete := false, quarantined := true)];
      return None;
    }

    method DeleteArtifactRecord(id: ArtifactId) returns (failure: Option<RowError>)
      modifies `artifacts
      ensures var r := DeleteRow(old(View()).rows, id);
              if r.Ok? then failure == None && Rows(artifacts, refs) == r.value
              else failure == Some(r.error) && artifacts == old(artifacts)
    {
      if id !in artifacts || Rows(artifacts, refs).Protected(id) {
        return Some(BecameIneligible);
      }
      artifacts := artifacts - {id};
      return None;
    }

    // -------------------------------------------------------------- recovery

    /** The stale in-flight runs, each listed once, by run id. */
    method StaleRuns(cutoff: int) returns (stale: seq<string>)
      ensures Ordered(stale) && Distinct(stale) && forall r :: r in stale <==> Stale(View(), r, cutoff)
      ensures forall r :: r in stale <==>
        r in runs && Interrupted in RunTransitions(runs[r].status) && runs[r].updatedAt < cutoff
      ensures forall i :: 0 <= i < |stale| ==> stale[i] in runs
    {
      stale := [];
      var pending := runs.Keys;
      hide Before;
      while pending != {}
        invariant pending <= runs.Keys && Ordered(stale)
        invariant forall r :: r in stale <==> Stale(View(), r, cutoff) && r !in pending
        invariant forall i, r :: 0 <= i < |stale| && r in pending ==> Before(stale[i], r)
        decreases pending
      {
        HasFirst(pending);
        var r :| r in pending && forall y :: y in pending && y != r ==> Before(r, y);
        pending := pending - {r};
        if Stale(View(), r, cutoff) {
          stale := stale + [r];
        }
      }
      OrderedDistinct(stale);
      forall r | r in runs
        ensures InFlight(runs[r].status) <==> Interrupted in RunTransitions(runs[r].status)
      {
        InFlightExactly(runs[r].status);
      }
    }

    /** `draws` are the fresh identifiers and the clock readings of the turns of the loop, in order. */
    method RecoverInterrupted(cutoff: int, workerAbsenceVerified: bool, draws: seq<Draw>)
      returns (reply: Result<seq<string>, Failure>, ghost stale: seq<string>)
      requires |draws| == |set r | r in runs && Stale(View(), r, cutoff)|
      modifies this
      ensures !workerAbsenceVerified ==> reply == Err(StateConflict) && View() == old(View())
      ensures workerAbsenceVerified ==>
        && Ordered(stale) && Distinct(stale) && (forall r :: r in stale <==> Stale(old(View()), r, cutoff))
        && |stale| == |draws| && (forall i :: 0 <= i < |stale| ==> stale[i] in old(View()).runs)
        && (View(), reply) == Recover(schema, old(View()), old(View()), stale, draws)
    {
      hide Write, RecoveryKey, RecoveryEvent, Recover, ResumesAt, Ordered, Distinct, Stale;
      stale := [];
      if !workerAbsenceVerified {
        return Err(StateConflict), stale;
      }
      var rows := StaleRuns(cutoff);
      stale := rows;
      ListedSize(rows, set r | r in runs && Stale(View(), r, cutoff));
      ghost var before := View();
      var lasts := runs;
      var recovered: seq<string> := [];
      var i := 0;
      ResumeStart(schema, before, rows, draws);
      while i < |rows|
        invariant 0 <= i <= |rows| == |draws|
        invariant recovered == rows[..i]
        invariant ResumesAt(schema, before, View(), rows, draws, i)
      {
        ghost var db := View();
        var last := lasts[rows[i]].lastSequence;
        var o := AppendEvent(RecoveryEvent(rows[i], last, draws[i]), Some(Interrupted), RecoveryKey(last + 1),
          draws[i].now);
        ResumeStep(schema, before, db, rows, draws, i, Outcome(View(), o));
        if o.Err? {
          return Err(o.error), stale;
        }
        recovered := recovered + [rows[i]];
        i := i + 1;
      }
      ResumeEnd(schema, before, View(), rows, draws);
      assert rows[..i] == rows;
      return Ok(recovered), stale;
    }
  }

  lemma OrderedDistinct(s: seq<string>)
    requires Ordered(s)
    ensures Distinct(s)
  {
    forall i, j | 0 <= i < j < |s|
      ensures s[i] != s[j]
    {
      BeforeTotal(s[i], s[j]);
    }
  }

  lemma {:induction false} ListedSize(s: seq<string>, all: set<string>)
    requires Distinct(s) && forall r :: r in s <==> r in all
    ensures |s| == |all|
  {
    if s == [] {
      assert all == {};
    } else {
      var r := s[|s| - 1];
      ListedSize(s[..|s| - 1], all - {r});
    }
  }
}
