/** A history on which recovery fails: a client has spent the key that recovery will generate. */
module RecoveryConflict {
  import opened Prelude
  import opened ArtifactRows
  import opened StateModel
  import opened StateInvariants
  import opened StateHistories
  import opened Recovery
  import Decimal

  const Anything := Schema(_ => true, _ => true, _ => true)

  const Fresh := Run("r", Created, 0, map[], None, None, "")

  function At(n: nat, id: string, status: Status): Event { Event(id, "r", n, "", RunType(status), "", []) }

  function Append(n: nat, id: string, status: Status, key: string): Action {
    Submit(AppendEvent(At(n, id, status), Some(status)), key, 0)
  }

  /** Preflight is appended under the key `recovery-5`; the run then starts at sequence 4. */
  const History: seq<Action> :=
    [Submit(CreateRun(Fresh, At(1, "a", Created)), "first", 0),
     Append(2, "b", Preflight, "recovery-5"), Append(3, "c", Queued, "third"), Append(4, "d", Running, "fourth")]

  lemma KeySpelled()
    ensures RecoveryKey(5) == "recovery-5"
  {
    assert Decimal.Text(5) == [Decimal.Digit(5)] == "5";
  }

  /** The run stands at `status` after `n` events, with these identifiers and keys in use. */
  ghost predicate Stands(db: Db, status: Status, n: nat, ids: set<string>, keys: set<string>) {
    && Inv(db) && "r" in db.runs && db.runs["r"].status == status && db.runs["r"].lastSequence == n
    && db.runs["r"].updatedAt == 0
    && (forall k :: k in db.events ==> db.events[k].eventId in ids)
    && (forall key :: IdempotencyKey("r", AppendEventOp, key) in db.idempotency <==> key in keys)
  }

  lemma AppendInserts(db: Db, n: nat, id: string, to: Status)
    requires LogKey("r", n + 1) !in db.events && !EventIdUsed(db.events, id)
    ensures var r := InsertEvent(db, At(n + 1, id, to));
            r.Ok? && r.value == db.(events := db.events[LogKey("r", n + 1) := At(n + 1, id, to)], rows := r.value.rows)
  {
    hide EventIdUsed, EventRefs;
  }

  /** An append that passes every check. */
  lemma AppendWrites(db: Db, n: nat, id: string, to: Status, key: string)
    requires "r" in db.runs && db.runs["r"].lastSequence == n && to in RunTransitions(db.runs["r"].status)
    requires to in {Preflight, Queued, Running} && LogKey("r", n + 1) !in db.events && !EventIdUsed(db.events, id)
    requires IdempotencyKey("r", AppendEventOp, key) !in db.idempotency
    ensures var db' := Act(Anything, db, Append(n + 1, id, to, key));
            && "r" in db'.runs && db'.runs["r"].status == to && db'.runs["r"].lastSequence == n + 1
            && db'.runs["r"].updatedAt == 0
            && db'.events == db.events[LogKey("r", n + 1) := At(n + 1, id, to)]
            && db'.idempotency.Keys == db.idempotency.Keys + {IdempotencyKey("r", AppendEventOp, key)}
  {
    hide EventIdUsed, EventRefs, RunTransitions, InsertEvent;
    AppendInserts(db, n, id, to);
    assert PerformAppend(Anything, db, At(n + 1, id, to), Some(to), 0).Ok?;
  }

  lemma NextFree(db: Db, n: nat, ids: set<string>, id: string)
    requires Inv(db) && "r" in db.runs && db.runs["r"].lastSequence == n
    requires (forall k :: k in db.events ==> db.events[k].eventId in ids) && id !in ids
    ensures LogKey("r", n + 1) !in db.events && !EventIdUsed(db.events, id)
  {
    hide Accounted, EventIdsDistinct, RefsHeld, StatusDiscipline, RowsAgree;
  }

  lemma AppendStands(db: Db, status: Status, n: nat, ids: set<string>, keys: set<string>, id: string, to: Status,
      key: string)
    requires Stands(db, status, n, ids, keys) && id !in ids && key !in keys && to in RunTransitions(status)
    requires to in {Preflight, Queued, Running}
    ensures Stands(Act(Anything, db, Append(n + 1, id, to, key)), to, n + 1, ids + {id}, keys + {key})
  {
    hide Inv, Act, EventIdUsed, RunTransitions;
    ActKeepsInvariant(Anything, db, Append(n + 1, id, to, key));
    NextFree(db, n, ids, id);
    AppendWrites(db, n, id, to, key);
    var db' := Act(Anything, db, Append(n + 1, id, to, key));
    forall k | true
      ensures IdempotencyKey("r", AppendEventOp, k) in db'.idempotency <==> k in keys + {key}
    {
      assert IdempotencyKey("r", AppendEventOp, k) in db'.idempotency
        <==> IdempotencyKey("r", AppendEventOp, k) in db'.idempotency.Keys;
    }
  }

  lemma CreateWrites()
    ensures var db := Act(Anything, EmptyDb, History[0]);
            && "r" in db.runs && db.runs["r"].status == Created && db.runs["r"].lastSequence == 1
            && db.runs["r"].updatedAt == 0
            && db.events == map[LogKey("r", 1) := At(1, "a", Created)]
            && db.idempotency.Keys == {IdempotencyKey("r", CreateRunOp, "first")}
  {
    hide EventRefs;
    var e := At(1, "a", Created);
    assert !EventIdUsed(map[], "a") && RefsAvailable(EmptyDb.rows, e.artifactRefs);
    assert PerformCreateRun(EmptyDb, Fresh, e, 0).Ok?;
  }

  lemma Created1()
    ensures Stands(Act(Anything, EmptyDb, History[0]), Created, 1, {"a"}, {})
  {
    hide Inv, Act;
    assert Inv(EmptyDb) by {
      ReplayKeepsInvariant(Anything, []);
      ReplayNothing(Anything, EmptyDb);
    }
    ActKeepsInvariant(Anything, EmptyDb, History[0]);
    CreateWrites();
    var db := Act(Anything, EmptyDb, History[0]);
    forall k | true
      ensures IdempotencyKey("r", AppendEventOp, k) !in db.idempotency
    {
      assert IdempotencyKey("r", AppendEventOp, k) !in db.idempotency.Keys;
    }
  }

  lemma HistoryStands()
    ensures Stands(Replay(Anything, EmptyDb, History), Running, 4, {"a", "b", "c", "d"},
            {RecoveryKey(5), "third", "fourth"})
  {
    hide Act, Stands, RecoveryKey;
    KeySpelled();
    assert "third" != RecoveryKey(5) && "fourth" != RecoveryKey(5) && "third" != "fourth" by { KeysDiffer(); }
    Created1();
    var h := History;
    var db1 := Act(Anything, EmptyDb, h[0]);
    AppendStands(db1, Created, 1, {"a"}, {}, "b", Preflight, RecoveryKey(5));
    var db2 := Act(Anything, db1, h[1]);
    assert {"a"} + {"b"} == {"a", "b"} && {} + {RecoveryKey(5)} == {RecoveryKey(5)};
    AppendStands(db2, Preflight, 2, {"a", "b"}, {RecoveryKey(5)}, "c", Queued, "third");
    var db3 := Act(Anything, db2, h[2]);
    assert {"a", "b"} + {"c"} == {"a", "b", "c"} && {RecoveryKey(5)} + {"third"} == {RecoveryKey(5), "third"};
    AppendStands(db3, Queued, 3, {"a", "b", "c"}, {RecoveryKey(5), "third"}, "d", Running, "fourth");
    assert {"a", "b", "c"} + {"d"} == {"a", "b", "c", "d"};
    assert {RecoveryKey(5), "third"} + {"fourth"} == {RecoveryKey(5), "third", "fourth"};
    FourSteps();
  }

  lemma FourSteps()
    ensures Replay(Anything, EmptyDb, History)
         == Act(Anything, Act(Anything, Act(Anything, Act(Anything, EmptyDb, History[0]), History[1]), History[2]),
            History[3])
  {
    hide Act;
    var h := History;
    assert h[..3] == [h[0], h[1], h[2]] && [h[0], h[1], h[2]][..2] == [h[0], h[1]] && [h[0], h[1]][..1] == [h[0]];
    OneStep(Anything, EmptyDb, h[0]);
    assert Replay(Anything, EmptyDb, [h[0], h[1]]) == Act(Anything, Replay(Anything, EmptyDb, [h[0]]), h[1]);
    assert Replay(Anything, EmptyDb, [h[0], h[1], h[2]])
      == Act(Anything, Replay(Anything, EmptyDb, [h[0], h[1]]), h[2]);
  }

  lemma KeysDiffer()
    ensures "third" != RecoveryKey(5) && "fourth" != RecoveryKey(5) && "third" != "fourth"
  {
    assert RecoveryKey(5)[0] == 'r' && "third"[0] == 't' && "fourth"[0] == 'f';
  }

  lemma SpentKey(db: Db, ids: set<string>, keys: set<string>)
    requires Stands(db, Running, 4, ids, keys) && RecoveryKey(5) in keys && "e" !in ids
    ensures Stale(db, "r", 1) && KeysLogged(db) && !KeyFree(db, "r") && !EventIdUsed(db.events, "e")
  {
    InvLogsKeys(db);
    hide Inv;
  }

  lemma NotHonest()
    ensures !HonestKeys(History)
  {
    var a := History[1];
    assert a in History && a.request.event.sequence == 2;
    KeySpelled();
    hide RecoveryKey;
    assert !HonestKey(a);
  }

  /** The run is stale and in flight, its recovery key is spent, and recovering it conflicts and changes nothing. */
  lemma SpentKeyStopsRecovery()
    ensures var db := Replay(Anything, EmptyDb, History);
            && Stale(db, "r", 1) && !HonestKeys(History)
            && Recover(Anything, db, db, ["r"], [Draw("e", "", 1)]) == (db, Err(StateConflict))
  {
    hide Replay, Inv, Write, KeyFree, RecoveryKey, HonestKeys, KeysLogged;
    HistoryStands();
    NotHonest();
    var db := Replay(Anything, EmptyDb, History);
    SpentKey(db, {"a", "b", "c", "d"}, {RecoveryKey(5), "third", "fourth"});
    RecoverConflicts(Anything, db, "r", Draw("e", "", 1));
  }
}
