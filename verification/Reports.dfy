/** freeze_report: a deterministic snapshot of a run's whole log, stored, pinned and referenced. */
module Reports {
  import opened Prelude
  import opened ArtifactRows
  import opened Storage
  import opened ArtifactProtocol
  import Durability
  import opened StateModel
  import opened StateInvariants
  import opened StateHistories
  import opened EventPaging
  import opened StateStores
  import opened ArtifactStores

  /** The event fields a report shows. */
  datatype EventView = EventView(eventId: string, sequence: nat, occurredAt: string, kind: EventType,
    artifactRefs: seq<ArtifactId>)

  datatype Snapshot = Snapshot(run: Run, events: seq<EventView>)

  /** Canonical JSON and the Markdown view, as fixed functions of the snapshot. */
  datatype Renderer = Renderer(canonical: Snapshot -> Bytes, markdown: Snapshot -> Bytes)

  datatype Frozen = Frozen(snapshot: ArtifactId, markdown: ArtifactId)

  datatype FreezeError = NoRun | EventsUnreadable | Incomplete | PutFailed | BadOwner | RefFailed

  datatype FreezeOutcome = FreezeOutcome(rows: Rows, disk: Disk, reply: Result<Frozen, FreezeError>)

  function ViewOf(e: Event): EventView { EventView(e.eventId, e.sequence, e.occurredAt, e.kind, e.artifactRefs) }

  function SnapshotOf(run: Run, events: seq<Event>): Snapshot {
    Snapshot(run, seq(|events|, i requires 0 <= i < |events| => ViewOf(events[i])))
  }

  function JsonPut(content: Bytes): PutRequest { PutRequest(content, "safe", "application/json", true, None) }
  function MarkdownPut(content: Bytes): PutRequest { PutRequest(content, "safe", "text/markdown", true, None) }

  function StoreReport(rows: Rows, d: Disk, runId: string, json: Bytes, markdown: Bytes): FreezeOutcome {
    var o1 := PutAlone(rows, d, JsonPut(json));
    if o1.reply.Err? then FreezeOutcome(o1.rows, o1.disk, Err(PutFailed))
    else
      var o2 := PutAlone(o1.rows, o1.disk, MarkdownPut(markdown));
      if o2.reply.Err? then FreezeOutcome(o2.rows, o2.disk, Err(PutFailed))
      else if |runId| == 0 || |runId| > 256 then FreezeOutcome(o2.rows, o2.disk, Err(BadOwner))
      else
        var r1 := AddRef(o2.rows, Ref(Sha256(json), "report", runId));
        if r1.Err? then FreezeOutcome(o2.rows, o2.disk, Err(RefFailed))
        else
          var r2 := AddRef(r1.value, Ref(Sha256(markdown), "report", runId));
          if r2.Err? then FreezeOutcome(r1.value, o2.disk, Err(RefFailed))
          else FreezeOutcome(r2.value, o2.disk, Ok(Frozen(Sha256(json), Sha256(markdown))))
  }

  function Freeze(db: Db, d: Disk, runId: string, render: Renderer): FreezeOutcome {
    if runId !in db.runs then FreezeOutcome(db.rows, d, Err(NoRun))
    else
      var run := db.runs[runId].entity;
      var events := EventsAfter(db, runId, 0, 1000);
      if events.Err? then FreezeOutcome(db.rows, d, Err(EventsUnreadable))
      else if |events.value| != run.lastSequence then FreezeOutcome(db.rows, d, Err(Incomplete))
      else
        var snapshot := SnapshotOf(run, events.value);
        StoreReport(db.rows, d, runId, render.canonical(snapshot), render.markdown(snapshot))
  }

  /** The method that does it, against the same specification. */
  method FreezeReport(state: StateStore, artifacts: ArtifactStore, runId: string, render: Renderer)
    returns (reply: Result<Frozen, FreezeError>)
    requires artifacts.state == state && artifacts.Valid()
    modifies artifacts, state`artifacts, state`refs
    ensures artifacts.Valid()
    ensures FreezeOutcome(artifacts.Records(), artifacts.View(), reply)
            == Freeze(old(state.View()), old(artifacts.View()), runId, render)
  {
    if runId !in state.runs {
      return Err(NoRun);
    }
    var run := state.runs[runId].entity;
    var events := EventsAfter(state.View(), runId, 0, 1000);
    if events.Err? {
      return Err(EventsUnreadable);
    }
    if |events.value| != run.lastSequence {
      return Err(Incomplete);
    }
    hide EventsAfter, PutAlone;
    var snapshot := SnapshotOf(run, events.value);
    var json, markdown := render.canonical(snapshot), render.markdown(snapshot);
    var first := artifacts.Put(JsonPut(json));
    if first.Err? {
      return Err(PutFailed);
    }
    var second := artifacts.Put(MarkdownPut(markdown));
    if second.Err? {
      return Err(PutFailed);
    }
    if |runId| == 0 || |runId| > 256 {
      return Err(BadOwner);
    }
    var failure := state.AddArtifactRef(Ref(Sha256(json), "report", runId));
    if failure.Some? {
      return Err(RefFailed);
    }
    failure := state.AddArtifactRef(Ref(Sha256(markdown), "report", runId));
    if failure.Some? {
      return Err(RefFailed);
    }
    return Ok(Frozen(Sha256(json), Sha256(markdown)));
  }

  /** Freezing is refused as incomplete exactly for logs longer than 1000 events. */
  lemma FreezeIncompleteExactly(db: Db, d: Disk, runId: string, render: Renderer)
    requires GapFree(db) && RowsAgree(db) && runId in db.runs
    ensures Freeze(db, d, runId, render).reply == Err(Incomplete) <==> db.runs[runId].lastSequence > 1000
    ensures Freeze(db, d, runId, render).reply != Err(EventsUnreadable)
  {
    FreezeAdmission(db, runId);
    hide EventsAfter, StoreReport, GapFree, Log;
    forall json: Bytes, markdown: Bytes
      ensures StoreReport(db.rows, d, runId, json, markdown).reply != Err(Incomplete)
      ensures StoreReport(db.rows, d, runId, json, markdown).reply != Err(EventsUnreadable)
    {
      StoreFailsOtherwise(db.rows, d, runId, json, markdown);
    }
  }

  lemma StoreFailsOtherwise(rows: Rows, d: Disk, runId: string, json: Bytes, markdown: Bytes)
    ensures StoreReport(rows, d, runId, json, markdown).reply != Err(Incomplete)
    ensures StoreReport(rows, d, runId, json, markdown).reply != Err(EventsUnreadable)
  {
    hide PutAlone, AddRef;
  }

  /** Once a put is in, later puts and references leave it readable and repeatable. */
  ghost predicate InStore(rows: Rows, d: Disk, q: PutRequest) {
    && Acceptable(q) && rows.LiveRow(q.Id())
    && var row := rows.artifacts[q.Id()];
       row.cls == q.cls && row.media == q.media && row.size == |q.content| && row.pinned
       && VerifiesAt(d.root, row.path, q.Id(), |q.content|)
  }

  lemma PutIsIn(rows: Rows, d: Disk, q: PutRequest)
    requires PutAlone(rows, d, q).reply.Ok? && q.pinned
    ensures InStore(PutAlone(rows, d, q).rows, PutAlone(rows, d, q).disk, q)
  {
  }

  lemma OtherPutKeeps(rows: Rows, d: Disk, q: PutRequest, other: PutRequest)
    requires InStore(rows, d, q) && PutAlone(rows, d, other).reply.Ok?
    ensures InStore(PutAlone(rows, d, other).rows, PutAlone(rows, d, other).disk, q)
  {
    PutThenRead(rows, d, other);
  }

  /** Putting what is in already changes nothing. */
  lemma PutAgain(rows: Rows, d: Disk, q: PutRequest)
    requires InStore(rows, d, q) && q.pinned
    ensures PutAlone(rows, d, q) == PutOutcome(rows, d, Ok(q.Id()))
  {
    var row := rows.artifacts[q.Id()];
    assert row.(pinned := true) == row;
    assert rows.artifacts[q.Id() := row] == rows.artifacts;
  }

  lemma StoredTwice(rows: Rows, d: Disk, runId: string, json: Bytes, markdown: Bytes)
    requires StoreReport(rows, d, runId, json, markdown).reply.Ok?
    ensures var o := StoreReport(rows, d, runId, json, markdown);
            && StoreReport(o.rows, o.disk, runId, json, markdown) == o
            && InStore(o.rows, o.disk, JsonPut(json)) && InStore(o.rows, o.disk, MarkdownPut(markdown))
  {
    var o1 := PutAlone(rows, d, JsonPut(json));
    PutIsIn(rows, d, JsonPut(json));
    PutIsIn(o1.rows, o1.disk, MarkdownPut(markdown));
    OtherPutKeeps(o1.rows, o1.disk, JsonPut(json), MarkdownPut(markdown));
    var o := StoreReport(rows, d, runId, json, markdown);
    hide PutAlone;
    assert InStore(o.rows, o.disk, JsonPut(json)) && InStore(o.rows, o.disk, MarkdownPut(markdown));
    PutAgain(o.rows, o.disk, JsonPut(json));
    PutAgain(o.rows, o.disk, MarkdownPut(markdown));
    assert o.rows.refs + {Ref(Sha256(json), "report", runId)} == o.rows.refs;
    assert o.rows.refs + {Ref(Sha256(markdown), "report", runId)} == o.rows.refs;
  }

  /** The bytes of a report, as the run and its log determine them. */
  function Content(db: Db, runId: string, render: Renderer): (Bytes, Bytes)
    requires runId in db.runs && EventsAfter(db, runId, 0, 1000).Ok?
  {
    var snapshot := SnapshotOf(db.runs[runId].entity, EventsAfter(db, runId, 0, 1000).value);
    (render.canonical(snapshot), render.markdown(snapshot))
  }

  lemma StoreKeepsRows(rows: Rows, d: Disk, runId: string, json: Bytes, markdown: Bytes)
    requires rows.Constrained() && StoreReport(rows, d, runId, json, markdown).reply.Ok?
    ensures var o := StoreReport(rows, d, runId, json, markdown);
            && o.rows.Constrained() && rows.refs <= o.rows.refs
            && Ref(Sha256(json), "report", runId) in o.rows.refs
            && Ref(Sha256(markdown), "report", runId) in o.rows.refs
  {
    PutKeepsRows(rows, d, JsonPut(json));
    var o1 := PutAlone(rows, d, JsonPut(json));
    PutKeepsRows(o1.rows, o1.disk, MarkdownPut(markdown));
    hide PutAlone;
  }

  lemma PutKeepsRows(rows: Rows, d: Disk, q: PutRequest)
    requires rows.Constrained() && PutAlone(rows, d, q).reply.Ok?
    ensures PutAlone(rows, d, q).rows.Constrained() && PutAlone(rows, d, q).rows.refs == rows.refs
  {
  }

  /** A freeze whose artifacts are still in the store, and still referenced, changes nothing and succeeds. */
  lemma StoredAgain(rows: Rows, d: Disk, runId: string, json: Bytes, markdown: Bytes)
    requires InStore(rows, d, JsonPut(json)) && InStore(rows, d, MarkdownPut(markdown)) && 0 < |runId| <= 256
    requires Ref(Sha256(json), "report", runId) in rows.refs && Ref(Sha256(markdown), "report", runId) in rows.refs
    ensures StoreReport(rows, d, runId, json, markdown)
            == FreezeOutcome(rows, d, Ok(Frozen(Sha256(json), Sha256(markdown))))
  {
    PutAgain(rows, d, JsonPut(json));
    PutAgain(rows, d, MarkdownPut(markdown));
    hide PutAlone;
    assert rows.refs + {Ref(Sha256(json), "report", runId)} == rows.refs;
    assert rows.refs + {Ref(Sha256(markdown), "report", runId)} == rows.refs;
  }

  lemma StoreSucceedsWith(rows: Rows, d: Disk, runId: string, json: Bytes, markdown: Bytes)
    ensures var reply := StoreReport(rows, d, runId, json, markdown).reply;
            && (reply.Ok? ==> reply.value == Frozen(Sha256(json), Sha256(markdown)) && 0 < |runId| <= 256)
            && (reply.Err? ==> reply.error == PutFailed || reply.error == RefFailed || reply.error == BadOwner)
            && (0 < |runId| <= 256 ==> reply != Err(BadOwner))
  {
    hide PutAlone, AddRef;
  }

  /**
   Freezing again after any history in which the run gained no event, and whatever happened on disk: the same
   identifiers, or a failure to store them; and success without any change when both artifacts are still in the store.
   */
  lemma FreezeTwice(sc: Schema, db: Db, d: Disk, runId: string, render: Renderer, between: seq<StateModel.Action>,
      d': Disk)
    requires Inv(db) && Freeze(db, d, runId, render).reply.Ok?
    requires var db' := Replay(sc, db.(rows := Freeze(db, d, runId, render).rows), between);
             runId in db'.runs && db'.runs[runId].lastSequence == db.runs[runId].lastSequence
    ensures var o := Freeze(db, d, runId, render);
            var db' := Replay(sc, db.(rows := o.rows), between);
            var again := Freeze(db', d', runId, render);
            && again.reply in {o.reply, Err(PutFailed), Err(RefFailed)}
            && (InStore(db'.rows, d', JsonPut(o.reply.value.snapshot.preimage))
                && InStore(db'.rows, d', MarkdownPut(o.reply.value.markdown.preimage)) ==>
                  again == FreezeOutcome(db'.rows, d', o.reply))
  {
    hide Replay, EventsAfter, StoreReport, Inv, InStore;
    var o := Freeze(db, d, runId, render);
    var (json, markdown) := Content(db, runId, render);
    assert o == StoreReport(db.rows, d, runId, json, markdown);
    StoreSucceedsWith(db.rows, d, runId, json, markdown);
    var frozen := db.(rows := o.rows);
    assert Inv(frozen) by { FreezeKeepsInvariant(db, d, runId, json, markdown); }
    assert db.rows.Constrained() by { InvConstrained(db); }
    StoreKeepsRows(db.rows, d, runId, json, markdown);
    QuietHistory(sc, frozen, between, runId);
    var db' := Replay(sc, frozen, between);
    SameEvents(db, db', runId);
    assert Freeze(db', d', runId, render) == StoreReport(db'.rows, d', runId, json, markdown);
    StoreSucceedsWith(db'.rows, d', runId, json, markdown);
    if InStore(db'.rows, d', JsonPut(json)) && InStore(db'.rows, d', MarkdownPut(markdown)) {
      StoredAgain(db'.rows, d', runId, json, markdown);
    }
  }

  lemma InvConstrained(db: Db)
    requires Inv(db)
    ensures db.rows.Constrained()
  {
  }

  lemma FreezeKeepsInvariant(db: Db, d: Disk, runId: string, json: Bytes, markdown: Bytes)
    requires Inv(db) && StoreReport(db.rows, d, runId, json, markdown).reply.Ok?
    ensures Inv(db.(rows := StoreReport(db.rows, d, runId, json, markdown).rows))
  {
    InvConstrained(db);
    hide StoreReport, Inv;
    StoreKeepsRows(db.rows, d, runId, json, markdown);
    RowActionKeepsInvariant(db, StoreReport(db.rows, d, runId, json, markdown).rows);
  }

  lemma {:induction false} SameSelect(db: Db, db': Db, runId: string, after: nat, limit: nat)
    requires SameLog(db, db', runId)
    ensures Select(db, runId, after, limit) == Select(db', runId, after, limit)
    decreases limit
  {
    SameSequences(db, db', runId);
    var later := Later(db, runId, after);
    if limit != 0 && later != {} {
      SameSelect(db, db', runId, Least(later), limit - 1);
      assert LogKey(runId, Least(later)) in db.events;
    }
  }

  lemma SameSequences(db: Db, db': Db, runId: string)
    requires SameLog(db, db', runId)
    ensures Sequences(db, runId) == Sequences(db', runId)
  {
    forall n: nat | n in Sequences(db, runId)
      ensures n in Sequences(db', runId)
    {
      assert LogKey(runId, n) in db'.events;
    }
    forall n: nat | n in Sequences(db', runId)
      ensures n in Sequences(db, runId)
    {
      assert LogKey(runId, n) in db.events;
    }
  }

  lemma SameEvents(db: Db, db': Db, runId: string)
    requires SameLog(db, db', runId) && (runId in db.runs <==> runId in db'.runs)
    ensures EventsAfter(db, runId, 0, 1000) == EventsAfter(db', runId, 0, 1000)
  {
    SameSequences(db, db', runId);
    SameSelect(db, db', runId, 0, 1000);
    hide Select, Sequences;
  }

  /** The snapshot shows the run, and of every event, in order, all but its payload. */
  lemma SnapshotShows(run: Run, events: seq<Event>)
    ensures var s := SnapshotOf(run, events);
            && s.run == run && |s.events| == |events|
            && forall i :: 0 <= i < |events| ==>
                 var view, e := s.events[i], events[i];
                 && view.eventId == e.eventId && view.sequence == e.sequence && view.occurredAt == e.occurredAt
                 && view.kind == e.kind && view.artifactRefs == e.artifactRefs
  {
  }

  lemma StoreExactly(rows: Rows, d: Disk, runId: string, json: Bytes, markdown: Bytes)
    ensures var o1 := PutAlone(rows, d, JsonPut(json));
            var o2 := PutAlone(o1.rows, o1.disk, MarkdownPut(markdown));
            StoreReport(rows, d, runId, json, markdown).reply ==
              if o1.reply.Err? || o2.reply.Err? then Err(PutFailed)
              else if |runId| == 0 || |runId| > 256 then Err(BadOwner)
              else Ok(Frozen(Sha256(json), Sha256(markdown)))
  {
    hide PutAlone, RowAfter;
    var o1 := PutAlone(rows, d, JsonPut(json));
    PutExactly(rows, d, JsonPut(json));
    PutExactly(o1.rows, o1.disk, MarkdownPut(markdown));
  }

  /**
   In a reachable state a report is frozen exactly if the run has at most 1000 events and both artifacts can be put.
   */
  lemma FreezeExactly(db: Db, d: Disk, runId: string, render: Renderer)
    requires GapFree(db) && RowsAgree(db)
    ensures var reply := Freeze(db, d, runId, render).reply;
            if runId !in db.runs then reply == Err(NoRun)
            else if db.runs[runId].lastSequence > 1000 then reply == Err(Incomplete)
            else
              var snapshot := SnapshotOf(db.runs[runId].entity, Log(db, runId));
              var json, markdown := render.canonical(snapshot), render.markdown(snapshot);
              var o1 := PutAlone(db.rows, d, JsonPut(json));
              var o2 := PutAlone(o1.rows, o1.disk, MarkdownPut(markdown));
              reply == if o1.reply.Err? || o2.reply.Err? then Err(PutFailed)
                       else if |runId| == 0 || |runId| > 256 then Err(BadOwner)
                       else Ok(Frozen(Sha256(json), Sha256(markdown)))
  {
    if runId in db.runs {
      FreezeIncompleteExactly(db, d, runId, render);
      FrozenLog(db, runId);
      hide EventsAfter, StoreReport, PutAlone;
      if db.runs[runId].lastSequence <= 1000 {
        var snapshot := SnapshotOf(db.runs[runId].entity, Log(db, runId));
        StoreExactly(db.rows, d, runId, render.canonical(snapshot), render.markdown(snapshot));
      }
    }
  }

  lemma FrozenLog(db: Db, runId: string)
    requires GapFree(db) && runId in db.runs
    ensures db.runs[runId].lastSequence <= 1000 ==> EventsAfter(db, runId, 0, 1000) == Ok(Log(db, runId))
  {
    ReadIsSlice(db, runId, 0, 1000);
    hide EventsAfter;
    var log := Log(db, runId);
    assert log[0..|log|] == log;
  }

  /** What both artifacts of a report are stored as: class safe, pinned, with their media types and no retention. */
  lemma StoredAs(rows: Rows, d: Disk, runId: string, json: Bytes, markdown: Bytes)
    requires StoreReport(rows, d, runId, json, markdown).reply.Ok? && json != markdown
    ensures var after := StoreReport(rows, d, runId, json, markdown).rows.artifacts;
            && Sha256(json) in after && Sha256(markdown) in after
            && after[Sha256(json)].cls == "safe" && after[Sha256(json)].media == "application/json"
            && after[Sha256(markdown)].cls == "safe" && after[Sha256(markdown)].media == "text/markdown"
            && after[Sha256(json)].pinned && after[Sha256(markdown)].pinned
            && (Sha256(json) !in rows.artifacts ==> after[Sha256(json)].retention == None)
            && (Sha256(markdown) !in rows.artifacts ==> after[Sha256(markdown)].retention == None)
  {
    hide PutAlone, RowAfter;
    var o1 := PutAlone(rows, d, JsonPut(json));
    PutExactly(rows, d, JsonPut(json));
    PutExactly(o1.rows, o1.disk, MarkdownPut(markdown));
    RowIsAsAsked(rows, d, JsonPut(json));
    RowIsAsAsked(o1.rows, o1.disk, MarkdownPut(markdown));
  }

  lemma RowIsAsAsked(rows: Rows, d: Disk, q: PutRequest)
    requires PutAlone(rows, d, q).reply.Ok?
    ensures var row := RowAfter(rows, q);
            && row.cls == q.cls && row.media == q.media && (q.pinned ==> row.pinned)
            && (q.Id() !in rows.artifacts ==> row.retention == q.retention)
  {
    PutExactly(rows, d, q);
    hide PutAlone;
  }

  /** A frozen report holds the complete log and reads back as exactly the bytes that were rendered. */
  lemma FrozenReadsBack(db: Db, d: Disk, runId: string, render: Renderer)
    requires GapFree(db) && RowsAgree(db) && Freeze(db, d, runId, render).reply.Ok?
    ensures var o := Freeze(db, d, runId, render);
            var snapshot := SnapshotOf(db.runs[runId].entity, Log(db, runId));
            && Durability.Read(o.rows, o.disk.root, o.reply.value.snapshot, {"safe"})
              == Some(render.canonical(snapshot))
            && Durability.Read(o.rows, o.disk.root, o.reply.value.markdown, {"safe"}) == Some(render.markdown(snapshot))
            && Ref(o.reply.value.snapshot, "report", runId) in o.rows.refs
            && Ref(o.reply.value.markdown, "report", runId) in o.rows.refs
  {
    ReadIsSlice(db, runId, 0, 1000);
    FreezeAdmission(db, runId);
    hide EventsAfter, StoreReport;
    var log := Log(db, runId);
    assert EventsAfter(db, runId, 0, 1000) == Ok(log[0..Min(1000, db.runs[runId].lastSequence)]);
    assert log[0..|log|] == log;
    var snapshot := SnapshotOf(db.runs[runId].entity, log);
    assert Freeze(db, d, runId, render)
      == StoreReport(db.rows, d, runId, render.canonical(snapshot), render.markdown(snapshot));
    StoredReadsBack(db.rows, d, runId, render.canonical(snapshot), render.markdown(snapshot));
  }

  lemma StoredReadsBack(rows: Rows, d: Disk, runId: string, json: Bytes, markdown: Bytes)
    requires StoreReport(rows, d, runId, json, markdown).reply.Ok?
    ensures var o := StoreReport(rows, d, runId, json, markdown);
            && o.reply == Ok(Frozen(Sha256(json), Sha256(markdown)))
            && Durability.Read(o.rows, o.disk.root, Sha256(json), {"safe"}) == Some(json)
            && Durability.Read(o.rows, o.disk.root, Sha256(markdown), {"safe"}) == Some(markdown)
            && Ref(Sha256(json), "report", runId) in o.rows.refs
            && Ref(Sha256(markdown), "report", runId) in o.rows.refs
  {
    StoredTwice(rows, d, runId, json, markdown);
    hide PutAlone;
  }
}
