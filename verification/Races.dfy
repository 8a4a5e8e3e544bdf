/**
 Reachable states in which a protected artifact cannot be read: the races are real.

 A pinning put verifies a file that is then collected; a crash finds the file of a referenced artifact out; an opening
 process closes after a put that its walk has not seen; an opening process moves a file that was registered since it
 looked. The last two happen to a put that was not overtaken.
 */
module Races {
  import opened Prelude
  import opened ArtifactRows
  import opened Storage
  import opened ArtifactProtocol
  import opened Durability

  ghost predicate Reachable(s: System) {
    exists states, actions :: IsRun(states, actions) && states[0] == Start && states[|actions|] == s
  }

  lemma ExtendRun(s: System, a: Action, s': System)
    requires Reachable(s) && Next(s, a, s')
    ensures Reachable(s')
  {
    hide Next;
    var states, actions :| IsRun(states, actions) && states[0] == Start && states[|actions|] == s;
    var states', actions' := states + [s'], actions + [a];
    assert states'[..|states|] == states && actions'[..|actions|] == actions;
    assert IsRun(states', actions') && states'[0] == Start && states'[|actions'|] == s';
  }

  lemma StepRun(s: System, pid: nat) returns (s': System)
    requires Reachable(s) && pid in s.procs
             && (s.procs[pid].Putting() || s.procs[pid].Collecting() || s.procs[pid].Opening())
    ensures Reachable(s')
    ensures s' == if s.procs[pid].Putting() then PutStep(s, pid, 0)
                  else if s.procs[pid].Collecting() then GcStep(s, pid)
                  else OpenStep(s, pid)
  {
    s' := if s.procs[pid].Putting() then PutStep(s, pid, 0)
          else if s.procs[pid].Collecting() then GcStep(s, pid)
          else OpenStep(s, pid);
    ExtendRun(s, Step(pid, 0), s');
  }

  const EmptyNote := PutRequest([], "safe", "text/plain", false, None)
  const PinnedNote := EmptyNote.(pinned := true)
  const NoteRow := Row("safe", "text/plain", 0, EmptyNote.Destination(), true, false, false, None)

  lemma StartReachable()
    ensures Reachable(Start)
  {
    assert IsRun([Start], []);
  }

  /** Process 0 starts to put the empty artifact into an empty store: its temporary file is there. */
  lemma UpToWrite(s: System, q: PutRequest) returns (s': System)
    requires Reachable(s) && s.rows == Rows(map[], {}) && s.disk == Disk(map[], map[], 0) && 0 !in s.procs
    requires q.content == []
    ensures Reachable(s')
    ensures s' == System(s.rows, Disk(map[q.Temporary(0) := Regular([], true)], map[], 1),
            s.procs[0 := PutWrite(q, 0, 0)])
  {
    hide Reachable;
    var s1 := At(s, 0, PutLookup(q));
    ExtendRun(s, StartPut(0, q), s1);
    var s2 := StepRun(s1, 0);
    assert s2.procs[0] == PutProbe(q);
    s' := StepRun(s2, 0);
    assert s'.disk.root == map[q.Temporary(0) := Regular([], true)];
    assert s'.procs == s.procs[0 := PutWrite(q, 0, 0)];
  }

  /** It verifies, links and drops the temporary name. */
  lemma ThenLinks(s: System, q: PutRequest) returns (s': System)
    requires Reachable(s) && q.content == [] && 0 in s.procs && s.procs[0] == PutWrite(q, 0, 0)
    requires s.disk == Disk(map[q.Temporary(0) := Regular([], true)], map[], 1)
    ensures Reachable(s')
    ensures s' == System(s.rows, Disk(map[q.Destination() := Regular([], true)], map[], 1),
                         s.procs[0 := PutRegister(q, q.Destination())])
  {
    hide Reachable;
    var s1 := StepRun(s, 0);
    assert s1.procs[0] == PutLink(q, 0) && s1.disk == s.disk;
    var s2 := StepRun(s1, 0);
    assert s2.procs[0] == PutUnlink(q, 0);
    s' := StepRun(s2, 0);
    assert s'.disk.root == map[q.Destination() := Regular([], true)];
    assert s'.procs == s.procs[0 := PutRegister(q, q.Destination())];
  }

  /** The put of process 0, up to the registration. */
  lemma UpToRegister(s: System, q: PutRequest) returns (s': System)
    requires Reachable(s) && s.rows == Rows(map[], {}) && s.disk == Disk(map[], map[], 0) && 0 !in s.procs
    requires q.content == []
    ensures Reachable(s')
    ensures s' == System(s.rows, Disk(map[q.Destination() := Regular([], true)], map[], 1),
                         s.procs[0 := PutRegister(q, q.Destination())])
  {
    hide Reachable;
    var s1 := UpToWrite(s, q);
    s' := ThenLinks(s1, q);
    assert s'.procs == s.procs[0 := PutRegister(q, q.Destination())];
  }

  /** The registration itself. */
  lemma ThenReturns(s: System, q: PutRequest) returns (s': System)
    requires Reachable(s) && s.rows == Rows(map[], {}) && 0 in s.procs && s.procs[0] == PutRegister(q, q.Destination())
    requires q == EmptyNote || q == PinnedNote
    ensures Reachable(s')
    ensures s' == System(Rows(map[q.Id() := NoteRow.(pinned := q.pinned)], {}), s.disk, s.procs[0 := PutReturned(q)])
  {
    hide Reachable;
    s' := StepRun(s, 0);
    assert s'.rows.artifacts == map[q.Id() := NoteRow.(pinned := q.pinned)];
  }

  /** The state after one put of the empty artifact by process 0. */
  lemma FirstPut() returns (s: System)
    ensures Reachable(s)
    ensures s == System(Rows(map[EmptyNote.Id() := NoteRow], {}),
                        Disk(map[EmptyNote.Destination() := Regular([], true)], map[], 1),
                        map[0 := PutReturned(EmptyNote)])
  {
    hide Reachable;
    StartReachable();
    s := UpToRegister(Start, EmptyNote);
    s := ThenReturns(s, EmptyNote);
    assert s.procs == map[0 := PutReturned(EmptyNote)];
  }

  /** Process 1 has looked up the row and verified the file for a pinning put of the same bytes. */
  lemma SecondPutVerified() returns (s: System)
    ensures Reachable(s)
    ensures s == System(Rows(map[EmptyNote.Id() := NoteRow], {}),
                        Disk(map[EmptyNote.Destination() := Regular([], true)], map[], 1),
                        map[0 := PutReturned(EmptyNote), 1 := PutRegister(PinnedNote, PinnedNote.Destination())])
  {
    var s1 := FirstPut();
    var s2 := At(s1, 1, PutLookup(PinnedNote));
    ExtendRun(s1, StartPut(1, PinnedNote), s2);
    var s3 := StepRun(s2, 1);
    s := StepRun(s3, 1);
    assert s.procs == map[0 := PutReturned(EmptyNote), 1 := PutRegister(PinnedNote, PinnedNote.Destination())];
  }

  /** Process 2 starts to collect the still unpinned artifact and takes its file. */
  lemma ThenHeld() returns (s: System)
    ensures Reachable(s)
    ensures s.rows == Rows(map[EmptyNote.Id() := NoteRow], {})
    ensures s.disk.root == map[]
    ensures 2 in s.procs && s.procs[2].GcDelete? && s.procs[2].id == EmptyNote.Id() && s.procs[2].todo == []
    ensures s.procs
         == map[0 := PutReturned(EmptyNote), 1 := PutRegister(PinnedNote, PinnedNote.Destination()), 2 := s.procs[2]]
  {
    hide Reachable;
    var s4 := SecondPutVerified();
    var todo := [Candidate(EmptyNote.Id(), EmptyNote.Destination())];
    var s5 := At(s4, 2, GcNext(todo));
    ExtendRun(s4, StartCollect(2, 0, todo), s5);
    s := StepRun(s5, 2);
    assert s.disk.root == map[];
  }

  /** ... deletes its row and unlinks it. */
  lemma ThenCollected() returns (s: System)
    ensures Reachable(s)
    ensures s.rows == Rows(map[], {}) && s.disk.root == map[]
    ensures s.procs
         == map[0 := PutReturned(EmptyNote), 1 := PutRegister(PinnedNote, PinnedNote.Destination()), 2 := Stopped]
  {
    hide Reachable;
    var s6 := ThenHeld();
    var s7 := StepRun(s6, 2);
    assert s7.rows == Rows(map[], {}) && s7.procs[2].GcUnlink? && s7.procs[2].todo == [];
    hide DeleteRow;
    var s8 := StepRun(s7, 2);
    s := StepRun(s8, 2);
  }

  /**
   A reachable state in which a pinning put has returned, its row is live, no collection is in flight, and `read`
   finds nothing: process 1 verified the file, process 2 collected it, process 1 then registered.
   */
  lemma PutCanReturnHollow() returns (s: System)
    ensures Reachable(s) && 1 in s.procs && s.procs[1] == PutReturned(PinnedNote)
    ensures s.rows.LiveRow(PinnedNote.Id()) && s.rows.Protected(PinnedNote.Id())
    ensures NoCollection(s)
    ensures Read(s.rows, s.disk.root, PinnedNote.Id(), {"safe"}) == None
  {
    var s9 := ThenCollected();
    s := StepRun(s9, 1);
  }

  ghost predicate NoCollection(s: System) { forall pid :: pid in s.procs ==> !s.procs[pid].Collecting() }

  const NoteRef := Ref(EmptyNote.Id(), "run", "r")

  /** The artifact of `FirstPut`, taken by a collector, gains a reference: its file is out while it is protected. */
  lemma ReferredWhileOut() returns (s: System)
    ensures Reachable(s)
    ensures s.rows == Rows(map[EmptyNote.Id() := NoteRow], {NoteRef})
    ensures s.disk.root == map[]
  {
    hide Reachable;
    var s1 := FirstPut();
    var todo := [Candidate(EmptyNote.Id(), EmptyNote.Destination())];
    var s2 := At(s1, 2, GcNext(todo));
    ExtendRun(s1, StartCollect(2, 0, todo), s2);
    var s3 := StepRun(s2, 2);
    assert s3.disk.root == map[];
    s := s3.(rows := s3.rows.(refs := {NoteRef}));
    assert s3.rows.refs + {NoteRef} == {NoteRef};
    ExtendRun(s3, Refer(NoteRef), s);
  }

  /** A crash at that moment: a reachable state in which the referenced artifact is quarantined and cannot be read. */
  lemma CrashQuarantinesReferred() returns (s: System)
    ensures Reachable(s) && s.rows.Protected(EmptyNote.Id()) && !s.rows.LiveRow(EmptyNote.Id())
    ensures Read(s.rows, s.disk.root, EmptyNote.Id(), {"safe"}) == None && NoCollection(s)
  {
    var s1 := ReferredWhileOut();
    var id := EmptyNote.Id();
    s := System(Rows(map[id := Quarantined(s1.rows.artifacts[id])], s1.rows.refs), s1.disk, map[]);
    assert Strays(s1.rows, s1.disk.root) == {} && s1.disk.root - {} == s1.disk.root;
    assert MovedAway(s1.disk, s.disk, {});
    assert NoteRef in s.rows.refs;
    ExtendRun(s1, Crash, s);
  }

  /** The closing loop of process 2, whose walk has seen nothing, comes to the row of `id`. */
  lemma ThenCloses(s: System, id: ArtifactId) returns (s': System)
    requires Reachable(s) && 2 in s.procs && s.procs[2] == OpenWalk({}, {}) && s.rows.LiveRow(id)
    ensures Reachable(s') && s'.disk == s.disk && s'.rows == Quarantine(s.rows, id).value
    ensures 2 in s'.procs && s'.procs == s.procs[2 := s'.procs[2]] && s'.procs[2].OpenClose?
  {
    hide Reachable, PutStep, GcStep;
    var s1 := StepRun(s, 2);
    assert s1.procs[2].OpenClose? && id in s1.procs[2].lost && s1.rows == s.rows;
    s' := SettleStep(s1, 2, id);
    ExtendRun(s1, Settle(2, id), s');
  }

  lemma OpenedEmpty() returns (s: System)
    ensures Reachable(s) && s == System(Start.rows, Start.disk, map[2 := OpenWalk({}, {})])
  {
    hide Reachable;
    StartReachable();
    s := At(Start, 2, OpenWalk({}, {}));
    assert Start.disk.root.Keys == {};
    ExtendRun(Start, StartOpen(2), s);
  }

  /**
   Process 2 opens an empty store and has finished its walk when process 0 puts and returns; the closing loop then
   quarantines the pinned row, although its file is in place and was never touched.
   */
  lemma OpeningQuarantinesReturned() returns (s: System)
    ensures Reachable(s) && 0 in s.procs && s.procs[0] == PutReturned(PinnedNote) && NoCollection(s)
    ensures s.disk.root == map[PinnedNote.Destination() := Regular([], true)]
    ensures s.rows.Protected(PinnedNote.Id()) && !s.rows.LiveRow(PinnedNote.Id())
    ensures Read(s.rows, s.disk.root, PinnedNote.Id(), {"safe"}) == None
  {
    hide Reachable;
    var s1 := OpenedEmpty();
    var s2 := UpToRegister(s1, PinnedNote);
    var s3 := ThenReturns(s2, PinnedNote);
    s := ThenCloses(s3, PinnedNote.Id());
  }

  /** Process 2 opens the store, looks the path up and finds no row. */
  lemma ThenLooks(s: System, p: Path) returns (s': System)
    requires Reachable(s) && s.rows == Rows(map[], {}) && 2 !in s.procs && p in s.disk.root && s.disk.root[p].Regular?
    ensures Reachable(s') && s'.rows == s.rows && s'.disk == s.disk
    ensures 2 in s'.procs && s'.procs == s.procs[2 := s'.procs[2]] && s'.procs[2].OpenMove? && s'.procs[2].path == p
    ensures s'.procs[2].owner == None
  {
    hide Reachable, PutStep, GcStep;
    var s1 := At(s, 2, OpenWalk(s.disk.root.Keys, {}));
    ExtendRun(s, StartOpen(2), s1);
    s' := VisitStep(s1, 2, p);
    assert RecordAt(s1.rows, p) == None;
    ExtendRun(s1, Visit(2, p), s');
  }

  /** ... and moves the file. */
  lemma ThenMoves(s: System, p: Path) returns (s': System)
    requires Reachable(s) && 2 in s.procs && s.procs[2].OpenMove? && s.procs[2].path == p && p in s.disk.root
    ensures Reachable(s') && s'.rows == s.rows && s'.disk.root == s.disk.root - {p}
    ensures 2 in s'.procs && s'.procs == s.procs[2 := s'.procs[2]] && s'.procs[2].Opening()
  {
    hide Reachable, PutStep, GcStep;
    s' := StepRun(s, 2);
  }

  /**
   Process 0 has linked its file; process 2 opens the store and finds no row for it; process 0 registers and returns;
   process 2 moves the file to quarantine. The pinned row is live and its file is gone.
   */
  lemma OpeningSweepsRegistered() returns (s: System)
    ensures Reachable(s) && 0 in s.procs && s.procs[0] == PutReturned(PinnedNote) && NoCollection(s)
    ensures s.rows.Protected(PinnedNote.Id()) && s.rows.LiveRow(PinnedNote.Id()) && s.disk.root == map[]
    ensures Read(s.rows, s.disk.root, PinnedNote.Id(), {"safe"}) == None
  {
    hide Reachable;
    StartReachable();
    var p := PinnedNote.Destination();
    var s1 := UpToRegister(Start, PinnedNote);
    var s2 := ThenLooks(s1, p);
    var s3 := ThenReturns(s2, PinnedNote);
    s := ThenMoves(s3, p);
    assert s.disk.root == map[];
  }
}
