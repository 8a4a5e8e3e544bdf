/**
 Collections and openings that run alone, against the sequential specifications: the collector sweeps the longest prefix
 of its candidates whose files are there, and an opening process reconciles, in whatever order its walk visits the
 paths.
 */
module SoloRuns {
  import opened Prelude
  import opened ArtifactRows
  import opened Storage
  import opened ArtifactProtocol
  import opened ArtifactStores

  /** An action of process `pid`. */
  predicate Own(a: Action, pid: nat) { (a.Step? || a.Visit? || a.Settle?) && a.pid == pid }

  /** From `s` to `s'` by actions of process `pid` alone. */
  ghost predicate Alone(s: System, pid: nat, s': System) {
    exists states: seq<System>, actions: seq<Action> :: Chain(s, pid, states, actions, s')
  }

  ghost predicate Chain(s: System, pid: nat, states: seq<System>, actions: seq<Action>, s': System) {
    && |states| == |actions| + 1 && states[0] == s && states[|actions|] == s'
    && forall i :: 0 <= i < |actions| ==> Own(actions[i], pid) && Next(states[i], actions[i], states[i + 1])
  }

  lemma AloneNow(s: System, pid: nat)
    ensures Alone(s, pid, s)
  {
    assert Chain(s, pid, [s], [], s);
  }

  lemma AloneThen(s: System, pid: nat, mid: System, a: Action, s': System)
    requires Alone(s, pid, mid) && Own(a, pid) && Next(mid, a, s')
    ensures Alone(s, pid, s')
  {
    hide Next;
    var states, actions :| Chain(s, pid, states, actions, mid);
    var states', actions' := states + [s'], actions + [a];
    assert states'[..|states|] == states && actions'[..|actions|] == actions;
    assert Chain(s, pid, states', actions', s');
  }

  // ---------------------------------------------------------------- collecting

  /** What is left of a candidate list: each one still there to be collected. */
  ghost predicate Ready(rows: Rows, todo: seq<Candidate>) {
    && (forall i :: 0 <= i < |todo| ==>
          && todo[i].id in rows.artifacts && rows.artifacts[todo[i].id].path == todo[i].path
          && !rows.Protected(todo[i].id))
    && (forall i, j :: 0 <= i < j < |todo| ==> todo[i].id != todo[j].id)
  }

  /** Take the file, delete the row, unlink. */
  lemma CollectStep(s: System, pid: nat, mid: System, todo: seq<Candidate>) returns (s': System)
    requires Alone(s, pid, mid) && pid in mid.procs && mid.procs[pid] == GcNext(todo) && todo != []
             && StampsPast(mid.disk)
    requires Ready(mid.rows, todo) && todo[0].path in mid.disk.root
    ensures Alone(s, pid, s') && pid in s'.procs && s'.procs[pid] == GcNext(todo[1..])
    ensures s'.rows == Rows(mid.rows.artifacts - {todo[0].id}, mid.rows.refs)
    ensures s'.disk.root == mid.disk.root - {todo[0].path} && s'.disk.quarantine == mid.disk.quarantine
    ensures StampsPast(s'.disk)
  {
    hide Alone, PutStep, OpenStep, VisitStep, SettleStep;
    var s1 := GcStep(mid, pid);
    AloneThen(s, pid, mid, Step(pid, 0), s1);
    var held := QName("gc", mid.disk.clock, todo[0].path);
    assert s1.procs[pid] == GcDelete(todo[0].id, todo[0].path, held, todo[1..]) && s1.rows == mid.rows;
    var s2 := GcStep(s1, pid);
    AloneThen(s, pid, s1, Step(pid, 0), s2);
    assert s2.procs[pid] == GcUnlink(held, todo[1..]);
    s' := GcStep(s2, pid);
    AloneThen(s, pid, s2, Step(pid, 0), s');
    assert held !in mid.disk.quarantine;
    assert s'.disk.quarantine == mid.disk.quarantine;
  }

  lemma ReadyRest(rows: Rows, todo: seq<Candidate>)
    requires Ready(rows, todo) && todo != []
    ensures Ready(Rows(rows.artifacts - {todo[0].id}, rows.refs), todo[1..])
  {
    var rest, rows' := todo[1..], Rows(rows.artifacts - {todo[0].id}, rows.refs);
    forall i | 0 <= i < |rest|
      ensures rest[i].id in rows'.artifacts && rows'.artifacts[rest[i].id].path == rest[i].path
              && !rows'.Protected(rest[i].id)
    {
      assert rest[i] == todo[i + 1] && todo[i + 1].id != todo[0].id;
    }
  }

  function Ids(todo: seq<Candidate>): seq<ArtifactId> {
    seq(|todo|, i requires 0 <= i < |todo| => todo[i].id)
  }

  /** The loop from any point: it goes on as long as files are there. */
  lemma {:induction false} CollectFrom(s: System, pid: nat, mid: System, all: seq<Candidate>, k: nat)
    returns (s': System, n: nat)
    requires Alone(s, pid, mid) && k <= |all| && pid in mid.procs && mid.procs[pid] == GcNext(all[k..])
    requires StampsPast(mid.disk) && Ready(mid.rows, all[k..])
    requires Swept(s.rows.artifacts, s.disk.root, Ids(all[..k]), mid.rows.artifacts, mid.disk.root)
    requires mid.rows.refs == s.rows.refs && mid.disk.quarantine == s.disk.quarantine
    ensures Alone(s, pid, s') && pid in s'.procs && s'.procs[pid] == Stopped && k <= n <= |all|
    ensures Swept(s.rows.artifacts, s.disk.root, Ids(all[..n]), s'.rows.artifacts, s'.disk.root)
    ensures s'.rows.refs == s.rows.refs && s'.disk.quarantine == s.disk.quarantine
    ensures n == |all| || all[n].path !in s'.disk.root
    decreases |all| - k
  {
    hide Alone, Swept, Ready;
    var todo := all[k..];
    if todo == [] || todo[0].path !in mid.disk.root {
      s', n := At(mid, pid, Stopped), k;
      assert s' == GcStep(mid, pid);
      AloneThen(s, pid, mid, Step(pid, 0), s');
    } else {
      var next := CollectStep(s, pid, mid, todo);
      ReadyRest(mid.rows, todo);
      ReadyFirst(mid.rows, todo);
      SweptOne(s.rows.artifacts, s.disk.root, Ids(all[..k]), mid.rows.artifacts, mid.disk.root, todo[0].id);
      SweptRow(s.rows.artifacts, s.disk.root, Ids(all[..k]), mid.rows.artifacts, mid.disk.root, todo[0].id);
      assert Ids(all[..k + 1]) == Ids(all[..k]) + [todo[0].id];
      assert todo[1..] == all[k + 1..];
      s', n := CollectFrom(s, pid, next, all, k + 1);
    }
  }

  lemma ReadyFirst(rows: Rows, todo: seq<Candidate>)
    requires Ready(rows, todo) && todo != []
    ensures todo[0].id in rows.artifacts && rows.artifacts[todo[0].id].path == todo[0].path
  {
  }

  lemma SweptRow(artifacts0: map<ArtifactId, Row>, root0: map<Path, Node>, removed: seq<ArtifactId>,
                 artifacts: map<ArtifactId, Row>, root: map<Path, Node>, id: ArtifactId)
    requires Swept(artifacts0, root0, removed, artifacts, root) && id in artifacts
    ensures id in artifacts0 && artifacts0[id] == artifacts[id]
  {
  }

  /**
   A collection that runs alone removes rows and files of the longest prefix of its candidates whose files are there,
   and nothing else; quarantine is as it was.
   */
  lemma SoloCollect(s: System, pid: nat, todo: seq<Candidate>) returns (s': System, n: nat)
    requires pid in s.procs && s.procs[pid] == GcNext(todo) && StampsPast(s.disk) && Ready(s.rows, todo)
    ensures Alone(s, pid, s') && pid in s'.procs && s'.procs[pid] == Stopped && n <= |todo|
    ensures Swept(s.rows.artifacts, s.disk.root, Ids(todo[..n]), s'.rows.artifacts, s'.disk.root)
    ensures s'.rows.refs == s.rows.refs && s'.disk.quarantine == s.disk.quarantine
    ensures n == |todo| || todo[n].path !in s'.disk.root
  {
    hide Alone, Ready;
    AloneNow(s, pid);
    SweptNothing(s.rows.artifacts, s.disk.root);
    assert todo[0..] == todo && Ids(todo[..0]) == [];
    hide Swept;
    s', n := CollectFrom(s, pid, s, todo, 0);
  }

  // ---------------------------------------------------------------- opening

  /** The walk has visited `done`, and the process is ready for the next path. */
  ghost predicate Walking(s: System, pid: nat, mid: System, done: set<Path>) {
    && Alone(s, pid, mid) && pid in mid.procs && mid.procs[pid].OpenWalk? && StampsPast(mid.disk)
    && mid.procs[pid].due == s.disk.root.Keys - done
    && Walked(s.rows, s.disk, done, mid.rows, mid.disk, mid.procs[pid].seen)
  }

  lemma NodeAt(s: System, mid: System, done: set<Path>, seen: set<ArtifactId>, p: Path)
    requires Walked(s.rows, s.disk, done, mid.rows, mid.disk, seen) && p in s.disk.root && p !in done
    ensures p in mid.disk.root && mid.disk.root[p] == s.disk.root[p]
    ensures forall id :: id in s.rows.artifacts && s.rows.artifacts[id].path == p ==>
      id in mid.rows.artifacts && mid.rows.artifacts[id] == s.rows.artifacts[id]
    ensures forall id :: id in mid.rows.artifacts ==>
      id in s.rows.artifacts && mid.rows.artifacts[id].path == s.rows.artifacts[id].path
  {
  }

  /** A path without a record, or an irregular one. */
  lemma VisitOrphan(s: System, pid: nat, mid: System, done: set<Path>, p: Path) returns (s': System)
    requires s.rows.Constrained() && Walking(s, pid, mid, done) && IsFile(s.disk.root, p) && p !in done
    requires !IsRegular(s.disk.root, p) || RecordAt(mid.rows, p).None?
    ensures Walking(s, pid, s', done + {p})
  {
    hide Alone, Walked, PutStep, GcStep;
    var due, seen := mid.procs[pid].due - {p}, mid.procs[pid].seen;
    NodeAt(s, mid, done, seen, p);
    assert s.disk.root[p] != Directory;
    var s1 := VisitStep(mid, pid, p);
    assert s1 == At(mid, pid, OpenMove(due, seen, p, "orphan", None));
    AloneThen(s, pid, mid, Visit(pid, p), s1);
    s' := OpenStep(s1, pid);
    AloneThen(s, pid, s1, Step(pid, 0), s');
    assert !IsRegular(s.disk.root, p) || forall id :: id in s.rows.artifacts ==> s.rows.artifacts[id].path != p;
    WalkOrphan(s.rows, s.disk, done, mid.rows, mid.disk, seen, p);
    assert s'.disk == MoveOne(mid.disk, p, "orphan") && s'.rows == mid.rows;
    assert s.disk.root.Keys - done - {p} == s.disk.root.Keys - (done + {p});
  }

  /** A path whose record is intact. */
  lemma VisitIntact(s: System, pid: nat, mid: System, done: set<Path>, p: Path, id: ArtifactId) returns (s': System)
    requires s.rows.Constrained() && Walking(s, pid, mid, done) && p in s.disk.root && p !in done
    requires RecordAt(mid.rows, p) == Some(id) && id in s.rows.artifacts && s.rows.artifacts[id].path == p
    requires Intact(s.disk.root, id, s.rows.artifacts[id])
    ensures Walking(s, pid, s', done + {p})
  {
    hide Alone, Walked, PutStep, GcStep, RecordAt;
    var due, seen, row := mid.procs[pid].due - {p}, mid.procs[pid].seen, s.rows.artifacts[id];
    NodeAt(s, mid, done, seen, p);
    var s1 := VisitStep(mid, pid, p);
    assert s1 == At(mid, pid, OpenVerify(due, seen, p, id, row.size));
    AloneThen(s, pid, mid, Visit(pid, p), s1);
    s' := OpenStep(s1, pid);
    assert s' == At(s1, pid, OpenWalk(due, seen + {id}));
    AloneThen(s, pid, s1, Step(pid, 0), s');
    WalkKeep(s.rows, s.disk, done, mid.rows, mid.disk, seen, p, seen + {id});
    assert s.disk.root.Keys - done - {p} == s.disk.root.Keys - (done + {p});
  }

  /** The decision to move a misfiled path, with or without reading the file. */
  lemma LookMisfiled(s: System, pid: nat, mid: System, done: set<Path>, p: Path, id: ArtifactId)
    returns (s': System, reason: string)
    requires s.rows.Constrained() && Walking(s, pid, mid, done) && IsRegular(s.disk.root, p) && p !in done
    requires RecordAt(mid.rows, p) == Some(id) && id in s.rows.artifacts && s.rows.artifacts[id].path == p
    requires Misfiled(s.disk.root, id, s.rows.artifacts[id])
    ensures Alone(s, pid, s')
    ensures s' == At(mid, pid, OpenMove(mid.procs[pid].due - {p}, mid.procs[pid].seen, p, reason, Some(id)))
  {
    hide Alone, Walked, PutStep, GcStep, RecordAt, OpenStep, SettleStep;
    var due, seen, row := mid.procs[pid].due - {p}, mid.procs[pid].seen, s.rows.artifacts[id];
    NodeAt(s, mid, done, seen, p);
    var s1 := VisitStep(mid, pid, p);
    AloneThen(s, pid, mid, Visit(pid, p), s1);
    if !row.Live() || p.Top() != row.cls {
      s', reason := s1, "invalid";
    } else {
      assert s1 == At(mid, pid, OpenVerify(due, seen, p, id, row.size));
      reason := "tampered";
      s' := FailsToVerify(s1, pid);
      AloneThen(s, pid, s1, Step(pid, 0), s');
    }
  }

  lemma FailsToVerify(s: System, pid: nat) returns (s': System)
    requires pid in s.procs && s.procs[pid].OpenVerify? && s.procs[pid].path in s.disk.root
    requires !Verifies(s.disk.root[s.procs[pid].path], s.procs[pid].id, s.procs[pid].size)
    ensures var p := s.procs[pid];
            s' == OpenStep(s, pid) == At(s, pid, OpenMove(p.due, p.seen, p.path, "tampered", Some(p.id)))
  {
    s' := OpenStep(s, pid);
  }

  /** Move the file, then mark the row. */
  lemma MoveThenMark(s: System, pid: nat, mid: System, p: Path, reason: string, id: ArtifactId) returns (s': System)
    requires Alone(s, pid, mid) && pid in mid.procs && mid.procs[pid].OpenMove? && p in mid.disk.root
    requires mid.procs[pid].path == p && mid.procs[pid].reason == reason && mid.procs[pid].owner == Some(id)
    requires id in mid.rows.artifacts
    ensures Alone(s, pid, s') && s'.rows == Quarantine(mid.rows, id).value && s'.disk == MoveOne(mid.disk, p, reason)
    ensures pid in s'.procs && s'.procs[pid] == OpenWalk(mid.procs[pid].due, mid.procs[pid].seen)
  {
    hide Alone, PutStep, GcStep, VisitStep, SettleStep;
    var s1 := OpenStep(mid, pid);
    AloneThen(s, pid, mid, Step(pid, 0), s1);
    s' := OpenStep(s1, pid);
    AloneThen(s, pid, s1, Step(pid, 0), s');
  }

  lemma VisitMisfiled(s: System, pid: nat, mid: System, done: set<Path>, p: Path, id: ArtifactId) returns (s': System)
    requires s.rows.Constrained() && Walking(s, pid, mid, done) && IsRegular(s.disk.root, p) && p !in done
    requires RecordAt(mid.rows, p) == Some(id) && id in s.rows.artifacts && s.rows.artifacts[id].path == p
    requires Misfiled(s.disk.root, id, s.rows.artifacts[id])
    ensures Walking(s, pid, s', done + {p})
  {
    hide Alone, Walked, RecordAt, Quarantine, Misfiled;
    var seen := mid.procs[pid].seen;
    NodeAt(s, mid, done, seen, p);
    var s1, reason := LookMisfiled(s, pid, mid, done, p, id);
    s' := MoveThenMark(s, pid, s1, p, reason, id);
    assert Quarantine(mid.rows, id).Ok? by { QuarantineOk(mid.rows, id); }
    WalkMisfiled(s.rows, s.disk, done, mid.rows, mid.disk, seen, p, id, Quarantine(mid.rows, id).value, reason);
    assert s.disk.root.Keys - done - {p} == s.disk.root.Keys - (done + {p});
  }

  lemma QuarantineOk(rows: Rows, id: ArtifactId)
    requires id in rows.artifacts
    ensures Quarantine(rows, id).Ok?
  {
  }

  lemma VisitDirectory(s: System, pid: nat, mid: System, done: set<Path>, p: Path) returns (s': System)
    requires s.rows.Constrained() && Walking(s, pid, mid, done) && p in s.disk.root && p !in done
    requires s.disk.root[p] == Directory
    ensures Walking(s, pid, s', done + {p})
  {
    hide Alone, Walked, PutStep, GcStep, RecordAt;
    var seen := mid.procs[pid].seen;
    NodeAt(s, mid, done, seen, p);
    s' := VisitStep(mid, pid, p);
    AloneThen(s, pid, mid, Visit(pid, p), s');
    WalkKeep(s.rows, s.disk, done, mid.rows, mid.disk, seen, p, seen);
    assert s.disk.root.Keys - done - {p} == s.disk.root.Keys - (done + {p});
  }

  /** One path, whatever it is. */
  lemma VisitOne(s: System, pid: nat, mid: System, done: set<Path>, p: Path) returns (s': System)
    requires s.rows.Constrained() && Walking(s, pid, mid, done) && p in s.disk.root && p !in done
    ensures Walking(s, pid, s', done + {p})
  {
    hide Walking;
    if s.disk.root[p] == Directory {
      s' := VisitDirectory(s, pid, mid, done, p);
    } else {
      var record := RecordAt(mid.rows, p);
      if !IsRegular(s.disk.root, p) || record.None? {
        s' := VisitOrphan(s, pid, mid, done, p);
      } else {
        var id := record.value;
        RecordOfStart(s, pid, mid, done, p, id);
        if Intact(s.disk.root, id, s.rows.artifacts[id]) {
          s' := VisitIntact(s, pid, mid, done, p, id);
        } else {
          s' := VisitMisfiled(s, pid, mid, done, p, id);
        }
      }
    }
  }

  lemma RecordOfStart(s: System, pid: nat, mid: System, done: set<Path>, p: Path, id: ArtifactId)
    requires Walking(s, pid, mid, done) && p in s.disk.root && p !in done && RecordAt(mid.rows, p) == Some(id)
    ensures id in s.rows.artifacts && s.rows.artifacts[id].path == p
  {
    hide Alone, Walked;
    NodeAt(s, mid, done, mid.procs[pid].seen, p);
  }

  function Paths(order: seq<Path>): set<Path> { set p | p in order }

  /** The walk over the rest of an order. */
  lemma {:induction false} WalkOn(s: System, pid: nat, mid: System, order: seq<Path>, k: nat) returns (s': System)
    requires s.rows.Constrained() && k <= |order| && (forall p :: p in order <==> p in s.disk.root)
    requires forall i, j :: 0 <= i < j < |order| ==> order[i] != order[j]
    requires Walking(s, pid, mid, Paths(order[..k]))
    ensures Walking(s, pid, s', s.disk.root.Keys)
    decreases |order| - k
  {
    hide Walking;
    if k == |order| {
      assert Paths(order[..k]) == s.disk.root.Keys by { assert order[..k] == order; }
      s' := mid;
    } else {
      var next := VisitOne(s, pid, mid, Paths(order[..k]), order[k]);
      assert order[..k + 1] == order[..k] + [order[k]];
      assert Paths(order[..k]) + {order[k]} == Paths(order[..k + 1]);
      s' := WalkOn(s, pid, next, order, k + 1);
    }
  }

  /** The closing loop: `lost` is still to be settled. */
  ghost predicate Closing(s: System, pid: nat, walked: Rows, mid: System, all: set<ArtifactId>, lost: set<ArtifactId>) {
    && Alone(s, pid, mid) && pid in mid.procs && mid.procs[pid] == OpenClose(lost)
    && lost <= all <= walked.artifacts.Keys
    && mid.rows.refs == walked.refs && mid.rows.artifacts.Keys == walked.artifacts.Keys
    && forall id :: id in walked.artifacts ==>
         mid.rows.artifacts[id] == if id in all - lost then Quarantined(walked.artifacts[id]) else walked.artifacts[id]
  }

  lemma {:induction false} CloseOn(s: System, pid: nat, walked: Rows, mid: System, all: set<ArtifactId>,
      lost: set<ArtifactId>)
    returns (s': System)
    requires Closing(s, pid, walked, mid, all, lost)
    ensures Closing(s, pid, walked, s', all, {}) && s'.disk == mid.disk
    decreases lost
  {
    hide Closing;
    if lost == {} {
      s' := mid;
    } else {
      var id :| id in lost;
      var next := CloseOne(s, pid, walked, mid, all, lost, id);
      s' := CloseOn(s, pid, walked, next, all, lost - {id});
    }
  }

  /** The closing loop comes to one row. */
  lemma CloseOne(s: System, pid: nat, walked: Rows, mid: System, all: set<ArtifactId>, lost: set<ArtifactId>,
      id: ArtifactId)
    returns (next: System)
    requires Closing(s, pid, walked, mid, all, lost) && id in lost
    ensures Closing(s, pid, walked, next, all, lost - {id}) && next.disk == mid.disk
  {
    hide Alone, PutStep, GcStep, OpenStep, VisitStep;
    next := SettleStep(mid, pid, id);
    AloneThen(s, pid, mid, Settle(pid, id), next);
  }

  /** An opening process that runs alone reconciles, in whatever order its walk visits the paths. */
  lemma SoloOpen(s: System, pid: nat, order: seq<Path>) returns (s': System)
    requires s.rows.Constrained() && StampsPast(s.disk) && pid in s.procs
             && s.procs[pid] == OpenWalk(s.disk.root.Keys, {})
    requires (forall p :: p in order <==> p in s.disk.root) && forall i, j :: 0 <= i < j < |order| ==>
      order[i] != order[j]
    ensures Alone(s, pid, s') && pid in s'.procs && s'.procs[pid] == Stopped
    ensures Reconciled(s.rows, s.disk, s'.rows, s'.disk)
  {
    hide Alone, Walked, Reconciled;
    AloneNow(s, pid);
    WalkStart(s.rows, s.disk);
    assert Paths(order[..0]) == {} && s.disk.root.Keys - {} == s.disk.root.Keys;
    var mid := WalkOn(s, pid, s, order, 0);
    var closed := OpenStep(mid, pid);
    AloneThen(s, pid, mid, Step(pid, 0), closed);
    var seen, lost := mid.procs[pid].seen, closed.procs[pid].lost;
    assert lost - lost == {};
    var settled := CloseOn(s, pid, mid.rows, closed, lost, lost);
    s' := At(settled, pid, Stopped);
    AloneThen(s, pid, settled, Step(pid, 0), s');
    WalkEnds(s.rows, s.disk, mid.rows, mid.disk, seen, s'.rows);
  }
}
