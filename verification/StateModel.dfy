/**
 The event-sourced state store: entities, tables, and the four idempotent write operations as
 functions from one database value to the next. A failed operation rolls its transaction back, so
 its function returns the database it was given.

 Canonical JSON is structural equality (a stored request digest is the request itself), schema
 validation is a fixed predicate, and the clock is an argument.
 */
module StateModel {
  import opened Prelude
  import opened ArtifactRows

  datatype Status =
    | Created | Preflight | AwaitingAuthority | Queued | Running | Pausing | Paused | Cancelling
    | Completed | CompletedNoFindings | CompletedWithUnsupported | Failed | Cancelled | Interrupted
    | UnknownStatus(name: string)

  predicate Terminal(s: Status) {
    s in {Completed, CompletedNoFindings, CompletedWithUnsupported, Failed, Cancelled}
  }

  function RunTransitions(s: Status): set<Status> {
    match s
    case Created => {Preflight, Cancelled, Failed}
    case Preflight => {AwaitingAuthority, Queued, Cancelled, Failed}
    case AwaitingAuthority => {Queued, Cancelled, Failed}
    case Queued => {Running, Cancelled, Failed}
    case Running => {Pausing, Cancelling, Completed, CompletedNoFindings, CompletedWithUnsupported,
                     Failed, Cancelled, Interrupted}
    case Pausing => {Paused, Cancelling, Failed, Interrupted}
    case Paused => {Running, Cancelling, Cancelled, Interrupted}
    case Cancelling => {Cancelled, Failed, Interrupted}
    case Interrupted => {Queued, Cancelled, Failed}
    case _ => {}
  }

  function StageTransitions(s: Status): set<Status> {
    match s
    case Created => {AwaitingAuthority, Queued, Cancelled, Failed}
    case AwaitingAuthority => {Queued, Cancelled, Failed}
    case Queued => {Running, Cancelled, Failed}
    case Running => {Pausing, Cancelling, Completed, Failed, Interrupted}
    case Pausing => {Paused, Cancelling, Failed, Interrupted}
    case Paused => {Running, Cancelling, Cancelled, Interrupted}
    case Cancelling => {Cancelled, Failed, Interrupted}
    case Interrupted => {Queued, Cancelled, Failed}
    case _ => {}
  }

  /** `run.<status>`, `stage.<state>` or any other dotted event type. */
  datatype EventType = RunType(status: Status) | StageType(state: Status) | OtherType(name: string)

  datatype Event = Event(
    eventId: string,
    runId: string,
    sequence: nat,
    occurredAt: string,
    kind: EventType,
    payload: string,
    artifactRefs: seq<ArtifactId>)

  datatype Run = Run(
    runId: string,
    status: Status,
    lastSequence: nat,
    counters: map<string, nat>,
    startedAt: Option<string>,
    terminalAt: Option<string>,
    details: string)
  {
    /** counters.get(name, 0) */
    function Counter(name: string): nat {
      if name in counters then counters[name] else 0
    }
  }

  datatype Stage = Stage(stageId: string, runId: string, state: Status, details: string)

  datatype RunRow = RunRow(status: Status, lastSequence: nat, entity: Run, updatedAt: int)
  datatype StageRow = StageRow(runId: string, state: Status, entity: Stage, updatedAt: int)

  datatype Operation = CreateRunOp | AppendEventOp | CreateStageOp | TransitionStageOp

  datatype Request =
    | CreateRun(run: Run, event: Event)
    | AppendEvent(event: Event, target: Option<Status>)
    | CreateStage(stage: Stage, event: Event)
    | TransitionStage(stageId: string, event: Event, targetState: Status)
  {
    function Op(): Operation {
      match this
      case CreateRun(_, _) => CreateRunOp
      case AppendEvent(_, _) => AppendEventOp
      case CreateStage(_, _) => CreateStageOp
      case TransitionStage(_, _, _) => TransitionStageOp
    }

    /** The run whose idempotency namespace the request uses. */
    function RunId(): string {
      match this
      case CreateRun(run, _) => run.runId
      case AppendEvent(event, _) => event.runId
      case CreateStage(stage, _) => stage.runId
      case TransitionStage(_, event, _) => event.runId
    }
  }

  datatype Response = RunResponse(run: Run) | StageResponse(stage: Stage)

  datatype IdempotencyKey = IdempotencyKey(runId: string, op: Operation, key: string)
  datatype IdempotencyRow = IdempotencyRow(request: Request, response: Response)

  datatype LogKey = LogKey(runId: string, sequence: nat)

  /** The tables. Events are indexed by their UNIQUE(run_id, sequence) key. */
  datatype Db = Db(
    runs: map<string, RunRow>,
    events: map<LogKey, Event>,
    stages: map<string, StageRow>,
    idempotency: map<IdempotencyKey, IdempotencyRow>,
    rows: Rows)

  const EmptyDb := Db(map[], map[], map[], map[], Rows(map[], {}))

  datatype Schema = Schema(run: Run -> bool, event: Event -> bool, stage: Stage -> bool)

  datatype Failure = ContractError | StateConflict | ConstraintError

  type Reply = Result<Response, Failure>

  /** What one write leaves behind: the database, and what the caller is told. */
  datatype Outcome = Outcome(db: Db, reply: Reply)

  predicate EventIdUsed(events: map<LogKey, Event>, id: string) {
    exists k :: k in events && events[k].eventId == id
  }

  predicate RefsAvailable(rows: Rows, ids: seq<ArtifactId>) {
    forall i :: 0 <= i < |ids| ==> rows.LiveRow(ids[i])
  }

  function EventRefs(e: Event): set<Ref> {
    set i | 0 <= i < |e.artifactRefs| :: Ref(e.artifactRefs[i], "event", e.eventId)
  }

  /** _insert_event: duplicate id, unavailable artifact, the UNIQUE index, then the insert and its references. */
  function InsertEvent(db: Db, e: Event): Result<Db, Failure> {
    var key := LogKey(e.runId, e.sequence);
    if EventIdUsed(db.events, e.eventId) || !RefsAvailable(db.rows, e.artifactRefs) then
      Err(StateConflict)
    else if key in db.events then
      Err(ConstraintError)
    else
      Ok(db.(events := db.events[key := e], rows := db.rows.(refs := db.rows.refs + EventRefs(e))))
  }

  /** The checks each operation makes before it opens its transaction. */
  function Precheck(sc: Schema, q: Request): Option<Failure> {
    match q
    case CreateRun(run, event) =>
      if !sc.run(run) || !sc.event(event) then Some(ContractError)
      else if run.status != Created || run.lastSequence != 0 || event.runId != run.runId
              || event.sequence != 1 || event.kind != RunType(Created) then Some(StateConflict)
      else None
    case AppendEvent(event, target) =>
      if !sc.event(event) then Some(ContractError)
      else if target.Some? && event.kind != RunType(target.value) then Some(StateConflict)
      else None
    case CreateStage(stage, event) =>
      if !sc.stage(stage) || !sc.event(event) then Some(ContractError)
      else if stage.state != Created || event.kind != StageType(Created) || event.runId != stage.runId then
        Some(StateConflict)
      else None
    case TransitionStage(_, event, target) =>
      if !sc.event(event) then Some(ContractError)
      else if event.kind != StageType(target) then Some(StateConflict)
      else None
  }

  /** The evidence a completed run must carry. */
  predicate CompletionEvidence(run: Run, target: Status) {
    && (target in {Completed, CompletedNoFindings} ==> run.Counter("performed") >= 1 && run.Counter("unsupported") == 0)
    && (target == CompletedWithUnsupported ==> run.Counter("unsupported") >= 1)
  }

  /** The run entity after an accepted event. */
  function AdvanceRun(run: Run, event: Event, target: Option<Status>): Run {
    var moved := if target.Some? then run.(status := target.value) else run;
    var counted := moved.(lastSequence := event.sequence);
    var started := if target == Some(Running) && counted.startedAt.None?
                   then counted.(startedAt := Some(event.occurredAt)) else counted;
    if target.Some? && Terminal(target.value) then started.(terminalAt := Some(event.occurredAt)) else started
  }

  /** The body of the transaction once no idempotency row was found. */
  function Perform(sc: Schema, db: Db, q: Request, now: int): Result<(Db, Response), Failure> {
    match q
    case CreateRun(run, event) => PerformCreateRun(db, run, event, now)
    case AppendEvent(event, target) => PerformAppend(sc, db, event, target, now)
    case CreateStage(stage, event) => PerformCreateStage(sc, db, stage, event, now)
    case TransitionStage(stageId, event, target) => PerformTransition(sc, db, stageId, event, target, now)
  }

  function PerformCreateRun(db: Db, run: Run, event: Event, now: int): Result<(Db, Response), Failure> {
    if run.runId in db.runs then Err(StateConflict)
    else
      var response := run.(lastSequence := 1);
      var db1 := db.(runs := db.runs[run.runId := RunRow(Created, 1, response, now)]);
      match InsertEvent(db1, event)
      case Err(f) => Err(f)
      case Ok(db2) => Ok((db2, RunResponse(response)))
  }

  function PerformAppend(sc: Schema, db: Db, event: Event, target: Option<Status>, now: int)
    : Result<(Db, Response), Failure>
  {
    if event.runId !in db.runs then Err(StateConflict)
    else
      var row := db.runs[event.runId];
      if event.sequence != row.lastSequence + 1 then Err(StateConflict)
      else if target.Some? && target.value !in RunTransitions(row.status) then Err(StateConflict)
      else if target.Some? && !CompletionEvidence(row.entity, target.value) then Err(StateConflict)
      else
        var run := AdvanceRun(row.entity, event, target);
        if !sc.run(run) then Err(ContractError)
        else
          match InsertEvent(db, event)
          case Err(f) => Err(f)
          case Ok(db1) =>
            Ok((db1.(runs := db1.runs[event.runId := RunRow(run.status, run.lastSequence, run, now)]),
              RunResponse(run)))
  }

  function PerformCreateStage(sc: Schema, db: Db, stage: Stage, event: Event, now: int)
    : Result<(Db, Response), Failure>
  {
    if stage.runId !in db.runs then Err(StateConflict)
    else
      var row := db.runs[stage.runId];
      if Terminal(row.status) || event.sequence != row.lastSequence + 1 || stage.stageId in db.stages then
        Err(StateConflict)
      else
        var run := row.entity.(lastSequence := event.sequence);
        if !sc.run(run) then Err(ContractError)
        else
          var db1 := db.(stages := db.stages[stage.stageId := StageRow(stage.runId, Created, stage, now)]);
          match InsertEvent(db1, event)
          case Err(f) => Err(f)
          case Ok(db2) =>
            Ok((db2.(runs := db2.runs[stage.runId := RunRow(row.status, event.sequence, run, now)]),
                StageResponse(stage)))
  }

  function PerformTransition(sc: Schema, db: Db, stageId: string, event: Event, target: Status, now: int)
    : Result<(Db, Response), Failure>
  {
    if stageId !in db.stages || db.stages[stageId].runId != event.runId then Err(StateConflict)
    else
      var stageRow := db.stages[stageId];
      if target !in StageTransitions(stageRow.state) || event.runId !in db.runs
         || event.sequence != db.runs[event.runId].lastSequence + 1 then Err(StateConflict)
      else
        var row := db.runs[event.runId];
        var stage := stageRow.entity.(state := target);
        var run := row.entity.(lastSequence := event.sequence);
        if !sc.stage(stage) || !sc.run(run) then Err(ContractError)
        else
          match InsertEvent(db, event)
          case Err(f) => Err(f)
          case Ok(db1) =>
            Ok((db1.(stages := db1.stages[stageId := StageRow(stageRow.runId, target, stage, now)],
                     runs := db1.runs[event.runId := RunRow(row.status, event.sequence, run, now)]),
                StageResponse(stage)))
  }

  /** One write request with its idempotency key: precheck, replay or conflict, otherwise perform and record. */
  function Write(sc: Schema, db: Db, q: Request, key: string, now: int): Outcome {
    if Precheck(sc, q).Some? then Outcome(db, Err(Precheck(sc, q).value))
    else
      var k := IdempotencyKey(q.RunId(), q.Op(), key);
      if k in db.idempotency then
        Outcome(db, if db.idempotency[k].request == q then Ok(db.idempotency[k].response) else Err(StateConflict))
      else
        match Perform(sc, db, q, now)
        case Err(f) => Outcome(db, Err(f))
        case Ok((db1, response)) =>
          Outcome(db1.(idempotency := db1.idempotency[k := IdempotencyRow(q, response)]), Ok(response))
  }

  /** Any transaction that changes the database. */
  datatype Action =
    | Submit(request: Request, key: string, now: int)
    | RegisterArtifact(id: ArtifactId, cls: string, media: string, size: nat, path: Path, pinned: bool,
      retention: Option<int>)
    | AddArtifactRef(ref: Ref)
    | QuarantineArtifact(id: ArtifactId)
    | DeleteArtifact(id: ArtifactId)

  function WithRows(db: Db, r: Result<Rows, RowError>): Db {
    if r.Ok? then db.(rows := r.value) else db
  }

  function Act(sc: Schema, db: Db, a: Action): Db {
    match a
    case Submit(q, key, now) => Write(sc, db, q, key, now).db
    case RegisterArtifact(id, cls, media, size, path, pinned, retention) =>
      WithRows(db, Register(db.rows, id, cls, media, size, path, pinned, retention))
    case AddArtifactRef(ref) => WithRows(db, AddRef(db.rows, ref))
    case QuarantineArtifact(id) => WithRows(db, Quarantine(db.rows, id))
    case DeleteArtifact(id) => WithRows(db, DeleteRow(db.rows, id))
  }

  /** The database after a whole history of transactions. */
  function Replay(sc: Schema, db: Db, history: seq<Action>): Db {
    if history == [] then db else Act(sc, Replay(sc, db, history[..|history| - 1]), history[|history| - 1])
  }
}
