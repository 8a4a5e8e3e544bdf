/**
 The artifact store as an object over a state store and two directories. `Put`, `Read`, `Collect` and
 `Reconcile` do what the source does call by call; their contracts tie them to `PutAlone`, `Durability.Read` and
 `Storage.Reconciled`.
 */
module ArtifactStores {
  import opened Prelude
  import opened ArtifactRows
  import opened Storage
  import opened ArtifactProtocol
  import Durability
  import opened StateStores
  import opened TextOrder

  const MAX_ARTIFACT_BYTES := 1_000_000_000
  const MAX_ENTRIES := 100_000
  const READ_CHUNK := 1_048_576

  datatype PutError = BadRequest | Conflict | FileDamaged | RowFailed(error: RowError)

  predicate Acceptable(q: PutRequest) {
    && q.cls in {"safe", "source", "protected", "diagnostic", "executable"}
    && |q.content| <= MAX_ARTIFACT_BYTES
    && 0 < |q.media| <= 256 && '/' in q.media
  }

  function Answer(failure: Option<RowError>, id: ArtifactId): Result<ArtifactId, PutError> {
    if failure.Some? then Err(RowFailed(failure.value)) else Ok(id)
  }

  datatype PutOutcome = PutOutcome(rows: Rows, disk: Disk, reply: Result<ArtifactId, PutError>)

  function Finish(rows: Rows, d: Disk, q: PutRequest, path: Path): PutOutcome {
    match Register(rows, q.Id(), q.cls, q.media, |q.content|, path, q.pinned, q.retention)
    case Ok(rows') => PutOutcome(rows', d, Ok(q.Id()))
    case Err(e) => PutOutcome(rows, d, Err(RowFailed(e)))
  }

  /** A put that nothing interferes with. */
  function PutAlone(rows: Rows, d: Disk, q: PutRequest): PutOutcome {
    if !Acceptable(q) then PutOutcome(rows, d, Err(BadRequest))
    else if q.Id() in rows.artifacts then
      var row := rows.artifacts[q.Id()];
      if row.cls != q.cls || row.media != q.media || row.size != |q.content| || !row.Live()
        then PutOutcome(rows, d, Err(Conflict))
      else if !VerifiesAt(d.root, row.path, q.Id(), |q.content|) then PutOutcome(rows, d, Err(FileDamaged))
      else Finish(rows, d, q, row.path)
    else if q.Destination() in d.root then
      if !VerifiesAt(d.root, q.Destination(), q.Id(), |q.content|) then PutOutcome(rows, d, Err(FileDamaged))
      else Finish(rows, d, q, q.Destination())
    else
      Finish(rows, d.(root := d.root[q.Destination() := Regular(q.content, true)], clock := d.clock + 1), q,
        q.Destination())
  }

  /** On success the artifact is registered, protected if asked for, and reads back as the bytes that were put. */
  lemma PutThenRead(rows: Rows, d: Disk, q: PutRequest)
    requires PutAlone(rows, d, q).reply.Ok?
    ensures var o := PutAlone(rows, d, q);
            && o.reply == Ok(q.Id()) && o.rows.LiveRow(q.Id()) && (q.pinned ==> o.rows.Protected(q.Id()))
            && Durability.Read(o.rows, o.disk.root, q.Id(), {q.cls}) == Some(q.content)
            && (forall p :: p in d.root ==> p in o.disk.root && o.disk.root[p] == d.root[p])
            && o.disk.quarantine == d.quarantine
  {
  }

  /** What the store accepts at all. */
  predicate WellFormed(q: PutRequest) {
    && (q.cls == "safe" || q.cls == "source" || q.cls == "protected" || q.cls == "diagnostic" || q.cls == "executable")
    && |q.content| <= 1_000_000_000
    && q.media != "" && |q.media| <= 256 && exists i :: 0 <= i < |q.media| && q.media[i] == '/'
  }

  /** The row of the identifier, if there is one, is live and says what the request says. */
  ghost predicate RowAgrees(rows: Rows, q: PutRequest) {
    q.Id() in rows.artifacts ==>
      var row := rows.artifacts[q.Id()];
      row.cls == q.cls && row.media == q.media && row.size == |q.content| && row.complete && !row.quarantined
  }

  /** The file is the content and private; without a row there may be none yet. */
  ghost predicate FileAgrees(rows: Rows, d: Disk, q: PutRequest) {
    var path := if q.Id() in rows.artifacts then rows.artifacts[q.Id()].path else q.Destination();
    if path in d.root then d.root[path] == Regular(q.content, true) else q.Id() !in rows.artifacts
  }

  ghost predicate PathTaken(rows: Rows, q: PutRequest) {
    q.Id() !in rows.artifacts && exists id :: id in rows.artifacts && rows.artifacts[id].path == q.Destination()
  }

  function RowAfter(rows: Rows, q: PutRequest): Row {
    if q.Id() in rows.artifacts then rows.artifacts[q.Id()].(pinned := q.pinned || rows.artifacts[q.Id()].pinned)
    else Row(q.cls, q.media, |q.content|, q.Destination(), true, false, q.pinned, q.retention)
  }

  /** When a put succeeds, and how it fails otherwise; on success one row and at most one file are new, as asked for. */
  lemma PutExactly(rows: Rows, d: Disk, q: PutRequest)
    ensures PutAlone(rows, d, q).reply ==
              if !WellFormed(q) then Err(BadRequest)
              else if !RowAgrees(rows, q) then Err(Conflict)
              else if !FileAgrees(rows, d, q) then Err(FileDamaged)
              else if PathTaken(rows, q) then Err(RowFailed(ConstraintFailed))
              else Ok(q.Id())
    ensures PutAlone(rows, d, q).reply.Err? ==> PutAlone(rows, d, q).rows == rows
    ensures PutAlone(rows, d, q).reply.Ok? ==>
      var o, path := PutAlone(rows, d, q), RowAfter(rows, q).path;
      && o.rows == Rows(rows.artifacts[q.Id() := RowAfter(rows, q)], rows.refs)
      && o.disk.root == d.root[path := Regular(q.content, true)] && o.disk.quarantine == d.quarantine
  {
  }

  /** A repeated put succeeds again, with the same identifier and no change on disk. */
  lemma PutTwice(rows: Rows, d: Disk, q: PutRequest)
    requires PutAlone(rows, d, q).reply.Ok?
    ensures var o := PutAlone(rows, d, q);
            PutAlone(o.rows, o.disk, q) == PutOutcome(o.rows, o.disk, o.reply)
  {
    var o := PutAlone(rows, d, q);
    var row := o.rows.artifacts[q.Id()];
    assert row.cls == q.cls && row.media == q.media && row.size == |q.content| && row.Live()
      && (q.pinned ==> row.pinned);
    assert VerifiesAt(o.disk.root, row.path, q.Id(), |q.content|) && o.reply == Ok(q.Id());
    RegisterAgain(o.rows, q);
    hide Register;
  }

  lemma RegisterAgain(rows: Rows, q: PutRequest)
    requires q.Id() in rows.artifacts
    requires var row := rows.artifacts[q.Id()];
             row.cls == q.cls && row.media == q.media && row.size == |q.content| && row.Live()
               && (q.pinned ==> row.pinned)
    ensures Register(rows, q.Id(), q.cls, q.media, |q.content|, rows.artifacts[q.Id()].path, q.pinned, q.retention)
            == Ok(rows)
  {
    var row := rows.artifacts[q.Id()];
    assert rows.artifacts[q.Id() := row] == rows.artifacts;
    assert q.pinned ==> row.(pinned := true) == row;
  }

  class ArtifactStore {
    const state: StateStore
    var root: map<Path, Node>
    var quarantine: map<QName, Node>
    var clock: nat

    constructor (state: StateStore)
      ensures this.state == state && View() == Disk(map[], map[], 0)
    {
      this.state := state;
      root, quarantine, clock := map[], map[], 0;
    }

    function View(): Disk
      reads this
    {
      Disk(root, quarantine, clock)
    }

    function Records(): Rows
      reads state
    {
      Rows(state.artifacts, state.refs)
    }

    /** Stamps in use are in the past, so the next one is fresh. */
    ghost predicate Valid()
      reads this
    {
      && (forall p :: p in root && p.Incoming? ==> p.stamp < clock)
      && StampsPast(View())
    }

    method Put(q: PutRequest) returns (reply: Result<ArtifactId, PutError>)
      requires Valid()
      modifies this, state`artifacts
      ensures Valid()
      ensures PutOutcome(Records(), View(), reply) == PutAlone(old(Records()), old(View()), q)
    {
      hide Register;
      if !Acceptable(q) {
        return Err(BadRequest);
      }
      var id, size := q.Id(), |q.content|;
      if id in state.artifacts {
        var row := state.artifacts[id];
        if row.cls != q.cls || row.media != q.media || row.size != size || !row.Live() {
          return Err(Conflict);
        }
        if !VerifiesAt(root, row.path, id, size) {
          return Err(FileDamaged);
        }
        var failure := state.RegisterArtifact(id, q.cls, q.media, size, row.path, q.pinned, q.retention);
        return Answer(failure, id);
      }
      var destination := q.Destination();
      if destination in root {
        if !VerifiesAt(root, destination, id, size) {
          return Err(FileDamaged);
        }
      } else {
        WriteAndLink(q);
      }
      var failure := state.RegisterArtifact(id, q.cls, q.media, size, destination, q.pinned, q.retention);
      return Answer(failure, id);
    }

    /** mkstemp, write until everything is accepted, link to the final name, drop the temporary name. */
    method WriteAndLink(q: PutRequest)
      requires Valid() && q.Destination() !in root
      modifies this
      ensures Valid()
      ensures View() == old(View()).(
                root := old(root)[q.Destination() := Regular(q.content, true)], clock := old(clock) + 1)
    {
      var temporary := q.Temporary(clock);
      clock := clock + 1;
      root := root[temporary := Regular([], true)];
      var written := 0;
      while written < |q.content|
        invariant 0 <= written <= |q.content|
        invariant root == old(root)[temporary := Regular(q.content[..written], true)]
        invariant quarantine == old(quarantine) && clock == old(clock) + 1
      {
        var accepted :| 1 <= accepted <= |q.content| - written;
        written := written + accepted;
        root := root[temporary := Regular(q.content[..written], true)];
      }
      assert q.content[..written] == q.content;
      root := root[q.Destination() := root[temporary]];
      root := root - {temporary};
      assert root == old(root)[q.Destination() := Regular(q.content, true)];
    }

    /** None stands for the errors the source raises. */
    method Read(id: ArtifactId, allowed: set<string>) returns (content: Option<Bytes>)
      ensures content == Durability.Read(Records(), root, id, allowed)
    {
      if id !in state.artifacts {
        return None;
      }
      var row := state.artifacts[id];
      if row.cls !in allowed || !row.Live() || !VerifiesAt(root, row.path, id, row.size) {
        return None;
      }
      var file := root[row.path].bytes;
      var chunks: Bytes := [];
      var remaining := row.size;
      while remaining > 0
        invariant 0 <= remaining <= |file| == row.size
        invariant chunks == file[..|file| - remaining]
      {
        var n :| 1 <= n <= remaining && n <= READ_CHUNK;
        chunks := chunks + file[|file| - remaining..|file| - remaining + n];
        remaining := remaining - n;
      }
      assert chunks == file;
      return Some(chunks);
    }

    /** Moves one file to quarantine under a fresh name. */
    method MoveToQuarantine(path: Path, reason: string)
      requires Valid() && path in root
      modifies this
      ensures Valid()
      ensures View() == MoveOne(old(View()), path, reason)
    {
      quarantine := quarantine[QName(reason, clock, path) := root[path]];
      root := root - {path};
      clock := clock + 1;
    }

    /** artifact_record_by_path */
    method FindByPath(path: Path) returns (found: Option<ArtifactId>)
      ensures found.Some? ==> found.value in state.artifacts && state.artifacts[found.value].path == path
      ensures found.None? ==> forall id :: id in state.artifacts ==> state.artifacts[id].path != path
    {
      if id :| id in state.artifacts && state.artifacts[id].path == path {
        return Some(id);
      }
      return None;
    }

    /** One path of the walk: keep it, or move it away and quarantine its record. */
    method ReconcilePath(path: Path, ghost rows0: Rows, ghost d0: Disk, ghost done: set<Path>, seen: set<ArtifactId>)
      returns (seen': set<ArtifactId>)
      requires Valid() && rows0.Constrained() && path in d0.root && path !in done
      requires Walked(rows0, d0, done, Records(), View(), seen)
      modifies this, state`artifacts
      ensures Valid() && Walked(rows0, d0, done + {path}, Records(), View(), seen')
    {
      seen' := seen;
      assert path in root && root[path] == d0.root[path];
      assert forall id :: id in state.artifacts ==>
        id in rows0.artifacts && state.artifacts[id].path == rows0.artifacts[id].path;
      ghost var rows := Records();
      if root[path] == Directory {
        WalkKeep(rows0, d0, done, rows, View(), seen, path, seen);
        return;
      }
      var record := FindByPath(path);
      if root[path] == Irregular || record.None? {
        hide Walked;
        WalkOrphan(rows0, d0, done, rows, View(), seen, path);
        MoveToQuarantine(path, "orphan");
        return;
      }
      var id := record.value;
      var row := state.artifacts[id];
      assert row == rows0.artifacts[id];
      hide Walked;
      if !row.Live() || path.Top() != row.cls || !Verifies(root[path], id, row.size) {
        var reason := if !row.Live() || path.Top() != row.cls then "invalid" else "tampered";
        WalkMisfiled(rows0, d0, done, rows, View(), seen, path, id, Quarantine(rows, id).value, reason);
        MoveToQuarantine(path, reason);
        var _ := state.QuarantineArtifact(id);
        return;
      }
      seen' := seen + {id};
      WalkKeep(rows0, d0, done, rows, View(), seen, path, seen');
    }

    /** False stands for the entry-limit error; even then every moved file is in quarantine under a name of its own. */
    method Reconcile() returns (ok: bool)
      requires Valid() && Records().Constrained()
      modifies this, state`artifacts
      ensures Valid()
      ensures ok <==> |old(root)| <= 100_000
      ensures ok ==> Reconciled(old(Records()), old(View()), Records(), View())
      ensures !ok ==> exists moved ::
        moved <= Strays(old(Records()), old(root)) && MovedAway(old(View()), View(), moved)
    {
      ghost var rows0, d0 := Records(), View();
      var seen: set<ArtifactId> := {};
      var pending := root.Keys;
      ghost var done: set<Path> := {};
      var entries := 0;
      WalkStart(rows0, d0);
      hide Reconciled, MovedAway, Strays;
      while pending != {}
        invariant Valid() && Walked(rows0, d0, done, Records(), View(), seen)
        invariant pending !! done && pending + done == d0.root.Keys
        invariant entries == |done| <= MAX_ENTRIES
        decreases pending
      {
        hide Walked;
        var path :| path in pending;
        assert |d0.root.Keys| == |pending| + |done|;
        entries := entries + 1;
        if entries > MAX_ENTRIES {
          return false;
        }
        seen := ReconcilePath(path, rows0, d0, done, seen);
        pending, done := pending - {path}, done + {path};
      }
      assert done == d0.root.Keys && |d0.root| == |done|;
      QuarantineMissing(rows0, d0, seen);
      return true;
    }

    /** Live rows whose file the walk did not see. */
    method QuarantineMissing(ghost rows0: Rows, ghost d0: Disk, seen: set<ArtifactId>)
      requires Walked(rows0, d0, d0.root.Keys, Records(), View(), seen)
      modifies state`artifacts
      ensures Reconciled(rows0, d0, Records(), View())
    {
      hide Walked, Reconciled;
      ghost var walked := Records();
      var missing := set id | id in state.artifacts && state.artifacts[id].Live() && id !in seen;
      ghost var settled: set<ArtifactId> := {};
      ghost var all := missing;
      while missing != {}
        invariant missing !! settled && missing + settled == all
        invariant state.artifacts.Keys == walked.artifacts.Keys
        invariant forall id :: id in walked.artifacts ==>
          state.artifacts[id] == if id in settled then Quarantined(walked.artifacts[id]) else walked.artifacts[id]
        decreases missing
      {
        var id :| id in missing;
        var _ := state.QuarantineArtifact(id);
        missing, settled := missing - {id}, settled + {id};
      }
      WalkEnds(rows0, d0, walked, View(), seen, Records());
    }

    /**
     One candidate: move its file to quarantine, delete its row, unlink the file; if the row became ineligible, put
     the file back. `late` is a reference another process commits while the file is out.
     */
    method CollectOne(id: ArtifactId, path: Path, late: Option<Ref>) returns (removed: bool)
      requires Valid() && id in state.artifacts && (late.Some? ==> late.value.id == id)
      modifies this, state`artifacts, state`refs
      ensures Valid() && quarantine == old(quarantine)
      ensures removed <==> path in old(root) && late.None? && !old(Records()).Protected(id)
      ensures removed ==> Records() == Rows(old(state.artifacts) - {id}, old(state.refs)) && root == old(root) - {path}
      ensures !removed ==> state.artifacts == old(state.artifacts) && root == old(root)
      ensures !removed ==>
        state.refs == old(state.refs) + (if late.Some? && path in old(root) then {late.value} else {})
    {
      if path !in root {
        return false;
      }
      var held := QName("gc", clock, path);
      MoveToQuarantine(path, "gc");
      removed := DeleteUnlessReferred(id, late);
      if !removed {
        root := root[path := quarantine[held]];
        assert root == old(root);
      }
      quarantine := quarantine - {held};
      assert quarantine == old(quarantine);
    }

    /** The deleting transaction, after a reference that may have been committed first. */
    method DeleteUnlessReferred(id: ArtifactId, late: Option<Ref>) returns (removed: bool)
      requires id in state.artifacts && (late.Some? ==> late.value.id == id)
      modifies state`artifacts, state`refs
      ensures removed <==> late.None? && !old(Records()).Protected(id)
      ensures state.artifacts == if removed then old(state.artifacts) - {id} else old(state.artifacts)
      ensures state.refs == old(state.refs) + (if late.Some? then {late.value} else {})
    {
      if late.Some? {
        var _ := state.AddArtifactRef(late.value);
      }
      var failure := state.DeleteArtifactRecord(id);
      return failure.None?;
    }

    /** garbage_collectable, each candidate once, in the order of the identifiers as the table spells them. */
    method ListCollectable(text: ArtifactId -> string, now: int) returns (candidates: seq<Candidate>)
      requires Spells(text, state.artifacts.Keys)
      ensures forall i :: 0 <= i < |candidates| ==>
        Expendable(Records(), candidates[i].id, now) && candidates[i].path == state.artifacts[candidates[i].id].path
      ensures InOrder(text, candidates)
      ensures forall id :: Expendable(Records(), id, now) ==> exists i ::
        0 <= i < |candidates| && candidates[i].id == id
    {
      assert forall id :: Expendable(Records(), id, now) ==> id in state.artifacts;
      assert InOrder(text, []);
      hide Before, Collectable, Expendable, InOrder;
      candidates := [];
      var pending := state.artifacts.Keys;
      while pending != {}
        invariant pending <= state.artifacts.Keys
        invariant forall i :: 0 <= i < |candidates| ==>
          && candidates[i].id in state.artifacts && Expendable(Records(), candidates[i].id, now)
          && candidates[i].path == state.artifacts[candidates[i].id].path
        invariant forall i, id :: 0 <= i < |candidates| && id in pending ==> Before(text(candidates[i].id), text(id))
        invariant InOrder(text, candidates)
        invariant forall id :: Expendable(Records(), id, now) && id !in pending ==> exists i ::
          0 <= i < |candidates| && candidates[i].id == id
        decreases pending
      {
        FirstSpelled(text, pending);
        var id :| id in pending && forall other :: other in pending && other != id ==> Before(text(id), text(other));
        pending := pending - {id};
        ghost var before := candidates;
        CollectableIs(Records(), id, now);
        if Collectable(Records(), id, now) {
          InOrderMore(text, candidates, Candidate(id, state.artifacts[id].path));
          candidates := candidates + [Candidate(id, state.artifacts[id].path)];
          assert candidates[|before|].id == id;
        }
        assert forall i :: 0 <= i < |before| ==> candidates[i] == before[i];
      }
    }

    /** The loop over the candidates; stops at the first one it cannot remove. */
    method Sweep(candidates: seq<Candidate>, late: map<ArtifactId, Ref>) returns (removed: seq<ArtifactId>)
      requires Valid() && forall id :: id in late ==> late[id].id == id
      requires forall i :: 0 <= i < |candidates| ==>
        candidates[i].id in state.artifacts && state.artifacts[candidates[i].id].path == candidates[i].path
      requires forall i, j :: 0 <= i < j < |candidates| ==> candidates[i].id != candidates[j].id
      modifies this, state`artifacts, state`refs
      ensures Valid() && quarantine == old(quarantine) && old(state.refs) <= state.refs
      ensures |removed| <= |candidates|
              && forall i :: 0 <= i < |removed| ==> removed[i] == candidates[i].id && removed[i] !in late
      ensures Swept(old(state.artifacts), old(root), removed, state.artifacts, root)
    {
      removed := [];
      var i := 0;
      SweptNothing(state.artifacts, root);
      while i < |candidates|
        invariant 0 <= i <= |candidates| && |removed| == i
        invariant Valid() && quarantine == old(quarantine) && state.refs == old(state.refs)
        invariant forall j :: 0 <= j < i ==> removed[j] == candidates[j].id && candidates[j].id !in late
        invariant Swept(old(state.artifacts), old(root), removed, state.artifacts, root)
      {
        var id, path := candidates[i].id, candidates[i].path;
        assert id !in removed && id in state.artifacts;
        SweptOne(old(state.artifacts), old(root), removed, state.artifacts, root, id);
        hide Swept, Rows.Protected;
        var done := CollectOne(id, path, if id in late then Some(late[id]) else None);
        if !done {
          return;
        }
        removed := removed + [id];
        i := i + 1;
      }
    }

    /**
     Collection removes rows and files together, touches nothing but candidates, and a candidate referenced in the
     meantime keeps both; on success every candidate is gone. `late` holds the references other processes commit.
     */
    method Collect(text: ArtifactId -> string, now: int, dryRun: bool, late: map<ArtifactId, Ref>)
      returns (ok: bool, removed: seq<ArtifactId>)
      requires Spells(text, state.artifacts.Keys)
      requires Valid() && forall id :: id in late ==> late[id].id == id
      modifies this, state`artifacts, state`refs
      ensures Valid() && quarantine == old(quarantine) && old(state.refs) <= state.refs
      ensures forall id :: id in removed ==> Expendable(old(Records()), id, now)
      ensures ok ==> forall id :: Expendable(old(Records()), id, now) ==> id in removed
      ensures forall i, j :: 0 <= i < j < |removed| ==> Before(text(removed[i]), text(removed[j]))
      ensures dryRun ==> ok && Records() == old(Records()) && View() == old(View())
      ensures !dryRun ==> Swept(old(state.artifacts), old(root), removed, state.artifacts, root)
      ensures !dryRun ==> forall id :: id in late ==> id !in removed
    {
      hide Swept, Before;
      ghost var rows0 := Records();
      var candidates := ListCollectable(text, now);
      OrderedApart(text, candidates);
      assert Records() == rows0;
      assert forall id :: Expendable(rows0, id, now) ==> exists i :: 0 <= i < |candidates| && candidates[i].id == id;
      if dryRun {
        removed := seq(|candidates|, i requires 0 <= i < |candidates| => candidates[i].id);
      } else {
        removed := Sweep(candidates, late);
      }
      ok := |removed| == |candidates|;
      forall id | ok && Expendable(rows0, id, now)
        ensures id in removed
      {
        var j :| 0 <= j < |candidates| && candidates[j].id == id;
        assert removed[j] == id;
      }
    }
  }

  /** A complete row that is not pinned and that nothing refers to, with no retention or with one that has passed. */
  ghost predicate Expendable(rows: Rows, id: ArtifactId, now: int) {
    && id in rows.artifacts && rows.artifacts[id].complete && !rows.artifacts[id].quarantined
    && !rows.artifacts[id].pinned && (forall r :: r in rows.refs ==> r.id != id)
    && (rows.artifacts[id].retention == None || exists until ::
         rows.artifacts[id].retention == Some(until) && until <= now)
  }

  lemma CollectableIs(rows: Rows, id: ArtifactId, now: int)
    ensures Collectable(rows, id, now) <==> Expendable(rows, id, now)
  {
    if Expendable(rows, id, now) && rows.artifacts[id].retention.Some? {
      assert rows.artifacts[id].retention == Some(rows.artifacts[id].retention.value);
    }
  }

  /** `text` spells these identifiers apart. */
  ghost predicate Spells(text: ArtifactId -> string, ids: set<ArtifactId>) {
    forall a, b :: a in ids && b in ids && text(a) == text(b) ==> a == b
  }

  ghost predicate InOrder(text: ArtifactId -> string, candidates: seq<Candidate>) {
    forall i, j :: 0 <= i < j < |candidates| ==> Before(text(candidates[i].id), text(candidates[j].id))
  }

  lemma InOrderMore(text: ArtifactId -> string, candidates: seq<Candidate>, c: Candidate)
    requires InOrder(text, candidates)
    requires forall i :: 0 <= i < |candidates| ==> Before(text(candidates[i].id), text(c.id))
    ensures InOrder(text, candidates + [c])
  {
    hide Before;
  }

  lemma FirstSpelled(text: ArtifactId -> string, ids: set<ArtifactId>)
    requires ids != {} && Spells(text, ids)
    ensures exists id :: id in ids && forall other :: other in ids && other != id ==> Before(text(id), text(other))
  {
    hide Before;
    var texts := set id | id in ids :: text(id);
    var some :| some in ids;
    assert text(some) in texts;
    HasFirst(texts);
    var first :| First(texts, first);
    var id :| id in ids && text(id) == first;
    assert forall other :: other in ids && other != id ==> Before(text(id), text(other));
  }

  lemma OrderedApart(text: ArtifactId -> string, candidates: seq<Candidate>)
    requires InOrder(text, candidates)
    ensures forall i, j :: 0 <= i < j < |candidates| ==> candidates[i].id != candidates[j].id
  {
    forall i, j | 0 <= i < j < |candidates|
      ensures candidates[i].id != candidates[j].id
    {
      BeforeTotal(text(candidates[i].id), text(candidates[j].id));
    }
  }

  /** Rows and files of `removed` are gone, everything else is untouched. */
  ghost predicate Swept(artifacts0: map<ArtifactId, Row>, root0: map<Path, Node>, removed: seq<ArtifactId>,
                        artifacts: map<ArtifactId, Row>, root: map<Path, Node>)
  {
    && (forall id :: id in removed ==> id in artifacts0)
    && artifacts == artifacts0 - (set id | id in removed)
    && root == root0 - (set id | id in removed && id in artifacts0 :: artifacts0[id].path)
  }

  lemma SweptNothing(artifacts: map<ArtifactId, Row>, root: map<Path, Node>)
    ensures Swept(artifacts, root, [], artifacts, root)
  {
  }

  lemma SweptOne(artifacts0: map<ArtifactId, Row>, root0: map<Path, Node>, removed: seq<ArtifactId>,
                 artifacts: map<ArtifactId, Row>, root: map<Path, Node>, id: ArtifactId)
    requires Swept(artifacts0, root0, removed, artifacts, root) && id in artifacts
    ensures Swept(artifacts0, root0, removed + [id], artifacts - {id}, root - {artifacts0[id].path})
  {
    assert (set i | i in removed + [id]) == (set i | i in removed) + {id};
    assert (set i | i in removed + [id] && i in artifacts0 :: artifacts0[i].path)
        == (set i | i in removed && i in artifacts0 :: artifacts0[i].path) + {artifacts0[id].path} by {
      assert id in removed + [id];
    }
  }
}
