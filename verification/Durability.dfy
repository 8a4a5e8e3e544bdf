/**
 What the artifact protocol guarantees over whole runs.

 Rows of pinned or referenced artifacts are never deleted and their bytes are never destroyed, in every run. A live row
 can lose its file in two ways, and `SafeExactly` proves that there is no third: `register_artifact` inserts a row for a
 file that is gone by then, or an opening process moves away a file whose row was inserted after it had looked.
 */
module Durability {
  import opened Prelude
  import opened ArtifactRows
  import opened Storage
  import opened ArtifactProtocol

  /** `read`: row, class, flags, then the file. */
  function Read(rows: Rows, root: map<Path, Node>, id: ArtifactId, allowed: set<string>): Option<Bytes> {
    if id !in rows.artifacts then None
    else
      var row := rows.artifacts[id];
      if row.cls in allowed && row.Live() && VerifiesAt(root, row.path, id, row.size) then Some(root[row.path].bytes)
        else None
  }

  /**
   Reading gives a content exactly if the row is live and of an allowed class, and its private file is that content.
   */
  lemma ReadExactly(rows: Rows, root: map<Path, Node>, id: ArtifactId, allowed: set<string>, content: Bytes)
    ensures Read(rows, root, id, allowed) == Some(content)
       <==> && id in rows.artifacts && id == Sha256(content)
            && var row := rows.artifacts[id];
               && row.cls in allowed && row.complete && !row.quarantined && row.size == |content|
               && row.path in root && root[row.path] == Regular(content, true)
  {
  }

  ghost predicate Held(s: System, p: Path) {
    exists pid :: pid in s.procs && s.procs[pid].Holds(p)
  }

  /** Every live row has its file, or a collector that took the file and has not yet settled its fate. */
  ghost predicate Safe(s: System) {
    forall id :: s.rows.LiveRow(id) ==> s.rows.artifacts[id].path in s.disk.root || Held(s, s.rows.artifacts[id].path)
  }

  /** The branch that breaks it: `register_artifact` is about to insert a row whose file is gone. */
  ghost predicate HollowInsert(s: System, a: Action) {
    && a.Step? && a.pid in s.procs && s.procs[a.pid].PutRegister?
    && s.procs[a.pid].q.Id() !in s.rows.artifacts
    && s.procs[a.pid].path !in s.disk.root
    && !Held(s, s.procs[a.pid].path)
  }

  /** An opening process is about to move the file at `p` to quarantine. */
  predicate Moves(s: System, a: Action, p: Path) {
    a.Step? && a.pid in s.procs && s.procs[a.pid].OpenMove? && s.procs[a.pid].path == p && p in s.disk.root
  }

  /** The other branch that breaks it: the file has a live row by now, and nobody holds another copy. */
  ghost predicate HollowMove(s: System, a: Action) {
    exists id :: s.rows.LiveRow(id) && Moves(s, a, s.rows.artifacts[id].path) && !Held(s, s.rows.artifacts[id].path)
  }

  /** An opening process is about to mark the row of `id` as quarantined. */
  predicate Marks(s: System, a: Action, id: ArtifactId) {
    && id in s.rows.artifacts
    && ((a.Step? && a.pid in s.procs && s.procs[a.pid].OpenMark? && s.procs[a.pid].id == id)
      || (a.Settle? && a.id == id))
  }

  lemma HeldElsewhere(s: System, s': System, pid: nat, p: Path)
    requires Held(s, p) && (pid in s.procs ==> !s.procs[pid].Holds(p) || (pid in s'.procs && s'.procs[pid].Holds(p)))
    requires forall i :: i in s.procs && i != pid ==> i in s'.procs && s'.procs[i] == s.procs[i]
    ensures Held(s', p)
  {
    var i :| i in s.procs && s.procs[i].Holds(p);
    assert s'.procs[i].Holds(p);
  }

  /** A step of a put: its own control point moves, no final name goes away, and only the last step touches rows. */
  lemma PutStepFrame(s: System, pid: nat, accepted: nat)
    requires pid in s.procs && s.procs[pid].Putting()
    ensures var s' := PutStep(s, pid, accepted);
            && pid in s'.procs && s'.procs == s.procs[pid := s'.procs[pid]] && !s'.procs[pid].Collecting()
            && (forall p: Path :: p.Stored? && p in s.disk.root ==> p in s'.disk.root)
            && (forall q: QName :: q in s.disk.quarantine && q.stamp < s.disk.clock && q.base.Stored? ==>
                  q in s'.disk.quarantine && s'.disk.quarantine[q] == s.disk.quarantine[q])
            && (if s.procs[pid].PutRegister? then s'.disk == s.disk else s'.rows == s.rows)
  {
    hide Register;
  }

  lemma PutStepHeld(s: System, pid: nat, accepted: nat, p: Path)
    requires pid in s.procs && s.procs[pid].Putting()
    ensures Held(s, p) <==> Held(PutStep(s, pid, accepted), p)
  {
    hide PutStep;
    var s' := PutStep(s, pid, accepted);
    PutStepFrame(s, pid, accepted);
    if Held(s, p) {
      HeldElsewhere(s, s', pid, p);
    }
    if Held(s', p) {
      HeldElsewhere(s', s, pid, p);
    }
  }

  lemma PutStepSafe(s: System, pid: nat, accepted: nat)
    requires Sound(s) && Safe(s) && pid in s.procs && s.procs[pid].Putting()
    ensures Safe(PutStep(s, pid, accepted)) <==> !HollowInsert(s, Step(pid, accepted))
  {
    hide PutStep, Held;
    var s' := PutStep(s, pid, accepted);
    forall p | true
      ensures Held(s, p) <==> Held(s', p)
    {
      PutStepHeld(s, pid, accepted, p);
    }
    if s.procs[pid].PutRegister? {
      RegisterSafe(s, pid, accepted);
    } else {
      PutStepFrame(s, pid, accepted);
      forall id | s'.rows.LiveRow(id)
        ensures s'.rows.artifacts[id].path in s'.disk.root || Held(s', s'.rows.artifacts[id].path)
      {
        assert s.rows.LiveRow(id);
      }
    }
  }

  lemma RegisterSafe(s: System, pid: nat, accepted: nat)
    requires Sound(s) && Safe(s) && pid in s.procs && s.procs[pid].PutRegister?
    requires forall p :: Held(s, p) <==> Held(PutStep(s, pid, accepted), p)
    ensures Safe(PutStep(s, pid, accepted)) <==> !HollowInsert(s, Step(pid, accepted))
  {
    var s' := PutStep(s, pid, accepted);
    var id := s.procs[pid].q.Id();
    if HollowInsert(s, Step(pid, accepted)) {
      forall i | i in s.rows.artifacts
        ensures s.rows.artifacts[i].path != s.procs[pid].path
      {
      }
      assert s'.rows.LiveRow(id);
    } else {
      forall i | s'.rows.LiveRow(i)
        ensures s'.rows.artifacts[i].path in s'.disk.root || Held(s', s'.rows.artifacts[i].path)
      {
        if i in s.rows.artifacts {
          assert s.rows.LiveRow(i) && s'.rows.artifacts[i].path == s.rows.artifacts[i].path;
        }
      }
    }
  }

  /** A step of a collection: what leaves the root is held, and what was held comes back unless its row is deleted. */
  lemma GcStepFrame(s: System, pid: nat)
    requires pid in s.procs && s.procs[pid].Collecting() && ProcSound(s.disk, s.procs[pid])
    ensures var s', was := GcStep(s, pid), s.procs[pid];
            && pid in s'.procs && s'.procs == s.procs[pid := s'.procs[pid]]
            && (forall p :: p in s.disk.root ==> p in s'.disk.root || s'.procs[pid].Holds(p))
            && (s'.rows == s.rows ==> forall p :: was.Holds(p) ==> p in s'.disk.root || s'.procs[pid].Holds(p))
            && (s'.rows != s.rows ==>
                  && was.GcDelete? && was.path.Stored? && was.path.id == was.id && !s.rows.Protected(was.id)
                  && s'.rows == Rows(s.rows.artifacts - {was.id}, s.rows.refs))
  {
    hide CandidatesSound;
  }

  lemma GcStepSafe(s: System, pid: nat)
    requires Sound(s) && Safe(s) && pid in s.procs && s.procs[pid].Collecting()
    ensures Safe(GcStep(s, pid))
  {
    hide StampsPast, ProcsSound, RootSound, GcStep;
    var s' := GcStep(s, pid);
    OwnSound(s, pid);
    GcStepFrame(s, pid);
    forall id | s'.rows.LiveRow(id)
      ensures s'.rows.artifacts[id].path in s'.disk.root || Held(s', s'.rows.artifacts[id].path)
    {
      var p := s'.rows.artifacts[id].path;
      assert s.rows.LiveRow(id) && s.rows.artifacts[id].path == p;
      if p !in s'.disk.root {
        if s'.procs[pid].Holds(p) {
        } else {
          assert Held(s, p);
          HeldElsewhere(s, s', pid, p);
        }
      }
    }
  }

  /** A step of an opening process: the file it moves, the row it marks, and nothing else. */
  ghost predicate OpenFrame(s: System, a: Action, s': System) {
    && s'.rows.refs == s.rows.refs && s'.rows.artifacts.Keys == s.rows.artifacts.Keys
    && (forall id :: id in s.rows.artifacts ==>
          s'.rows.artifacts[id] == if Marks(s, a, id) then Quarantined(s.rows.artifacts[id]) else s.rows.artifacts[id])
    && (forall p :: p in s'.disk.root <==> p in s.disk.root && !Moves(s, a, p))
    && (forall q :: q in s.disk.quarantine && q.stamp < s.disk.clock ==>
          q in s'.disk.quarantine && s'.disk.quarantine[q] == s.disk.quarantine[q])
    && (forall p :: Moves(s, a, p) ==>
          var q := QName(s.procs[a.pid].reason, s.disk.clock, p);
          q in s'.disk.quarantine && s'.disk.quarantine[q] == s.disk.root[p])
  }

  predicate OpenerActs(s: System, a: Action) {
    (a.Step? && a.pid in s.procs && s.procs[a.pid].Opening()) || a.Settle?
  }

  lemma MoveFrame(s: System, a: Action, s': System)
    requires a.Step? && a.pid in s.procs && s.procs[a.pid].OpenMove? && s' == OpenStep(s, a.pid)
    ensures OpenFrame(s, a, s')
  {
    assert forall id :: !Marks(s, a, id);
  }

  lemma MarkFrame(s: System, a: Action, s': System, id: ArtifactId)
    requires (forall p :: !Moves(s, a, p)) && (forall i :: Marks(s, a, i) <==> i == id && id in s.rows.artifacts)
    requires s'.disk == s.disk
    requires s'.rows == if Quarantine(s.rows, id).Ok? then Quarantine(s.rows, id).value else s.rows
    ensures OpenFrame(s, a, s')
  {
    hide Marks, Moves;
  }

  lemma StillFrame(s: System, a: Action, s': System)
    requires (forall p :: !Moves(s, a, p)) && (forall i :: !Marks(s, a, i)) && s'.disk == s.disk && s'.rows == s.rows
    ensures OpenFrame(s, a, s')
  {
    hide Marks, Moves;
  }

  lemma OpenProcs(s: System, a: Action, s': System)
    requires Next(s, a, s') && OpenerActs(s, a)
    ensures a.pid in s.procs && s.procs[a.pid].Opening() && a.pid in s'.procs
            && s'.procs == s.procs[a.pid := s'.procs[a.pid]]
    ensures s'.procs[a.pid].Opening() || s'.procs[a.pid] == Stopped
  {
    hide PutStep, GcStep, Quarantine, MoveOne;
  }

  lemma OpenStepFrame(s: System, a: Action, s': System)
    requires Next(s, a, s') && OpenerActs(s, a)
    ensures OpenFrame(s, a, s')
    ensures a.pid in s.procs && s.procs[a.pid].Opening() && a.pid in s'.procs
            && s'.procs == s.procs[a.pid := s'.procs[a.pid]]
    ensures s'.procs[a.pid].Opening() || s'.procs[a.pid] == Stopped
  {
    hide PutStep, GcStep, Quarantine, MoveOne, OpenFrame;
    OpenProcs(s, a, s');
    var p := s.procs[a.pid];
    if a.Settle? {
      MarkFrame(s, a, s', a.id);
    } else if p.OpenMark? {
      MarkFrame(s, a, s', p.id);
    } else if p.OpenMove? {
      MoveFrame(s, a, s');
    } else {
      StillFrame(s, a, s');
    }
  }

  lemma OpenHeld(s: System, a: Action, s': System, p: Path)
    requires Next(s, a, s') && OpenerActs(s, a)
    ensures Held(s, p) <==> Held(s', p)
  {
    OpenStepFrame(s, a, s');
    hide Next;
    if Held(s, p) {
      HeldElsewhere(s, s', a.pid, p);
    }
    if Held(s', p) {
      HeldElsewhere(s', s, a.pid, p);
    }
  }

  lemma OpenSafe(s: System, a: Action, s': System)
    requires Sound(s) && Safe(s) && Next(s, a, s') && OpenerActs(s, a)
    ensures Safe(s') <==> !HollowMove(s, a)
  {
    OpenStepFrame(s, a, s');
    forall p | true
      ensures Held(s, p) <==> Held(s', p)
    {
      OpenHeld(s, a, s', p);
    }
    hide Next, Sound, Held;
    if id :| s.rows.LiveRow(id) && Moves(s, a, s.rows.artifacts[id].path) && !Held(s, s.rows.artifacts[id].path) {
      assert !Marks(s, a, id);
      assert s'.rows.LiveRow(id);
    } else {
      forall id | s'.rows.LiveRow(id)
        ensures s'.rows.artifacts[id].path in s'.disk.root || Held(s', s'.rows.artifacts[id].path)
      {
        assert s.rows.LiveRow(id);
      }
    }
  }

  lemma CrashSafe(s: System, s': System)
    requires Sound(s) && Next(s, Crash, s')
    ensures Safe(s')
  {
    ReconcileConsistent(s.rows, s.disk, s'.rows, s'.disk);
  }

  /** Starting, looking, failing and referring touch neither artifact rows nor files under final names. */
  predicate Idles(a: Action) { a.StartPut? || a.StartCollect? || a.StartOpen? || a.Visit? || a.Fault? || a.Refer? }

  lemma IdleFrame(s: System, a: Action, s': System)
    requires Next(s, a, s') && Idles(a)
    ensures s'.rows.artifacts == s.rows.artifacts && s.rows.refs <= s'.rows.refs
    ensures forall p: Path :: p.Stored? ==> (p in s'.disk.root <==> p in s.disk.root)
    ensures forall q :: q in s.disk.quarantine && q.stamp < s.disk.clock ==>
      q in s'.disk.quarantine && s'.disk.quarantine[q] == s.disk.quarantine[q]
    ensures if a.Refer? then s'.procs == s.procs
            else a.pid in s'.procs && s'.procs == s.procs[a.pid := s'.procs[a.pid]]
    ensures forall p :: Held(s, p) <==> Held(s', p)
  {
    hide RecordAt;
    forall p | true
      ensures Held(s, p) <==> Held(s', p)
    {
      if !a.Refer? {
        if Held(s, p) {
          HeldElsewhere(s, s', a.pid, p);
        }
        if Held(s', p) {
          HeldElsewhere(s', s, a.pid, p);
        }
      }
    }
  }

  lemma IdleSafe(s: System, a: Action, s': System)
    requires Sound(s) && Safe(s) && Next(s, a, s') && Idles(a)
    ensures Safe(s')
  {
    IdleFrame(s, a, s');
    hide Next, Held, StampsPast, ProcsSound, RootSound;
    forall id | s'.rows.LiveRow(id)
      ensures s'.rows.artifacts[id].path in s'.disk.root || Held(s', s'.rows.artifacts[id].path)
    {
      assert s.rows.LiveRow(id);
    }
  }

  /** One step, exactly: safety is lost by a hollow insert, by a hollow move, and by nothing else. */
  lemma StepSafeExactly(s: System, a: Action, s': System)
    requires Sound(s) && Safe(s) && Next(s, a, s')
    ensures Safe(s') <==> !HollowInsert(s, a) && !HollowMove(s, a)
  {
    hide Sound, Safe, PutStep, GcStep, OpenStep, SettleStep, VisitStep, Held;
    if OpenerActs(s, a) {
      OpenSafe(s, a, s');
    } else if a.Step? {
      if s.procs[a.pid].Putting() {
        PutStepSafe(s, a.pid, a.accepted);
      } else {
        GcStepSafe(s, a.pid);
      }
    } else if a.Crash? {
      CrashSafe(s, s');
    } else {
      IdleSafe(s, a, s');
    }
  }

  // ---------------------------------------------------------------- whole runs

  ghost predicate IsRun(states: seq<System>, actions: seq<Action>) {
    |states| == |actions| + 1 && forall i :: 0 <= i < |actions| ==> Next(states[i], actions[i], states[i + 1])
  }

  lemma {:induction false} RunSound(states: seq<System>, actions: seq<Action>, n: nat)
    requires IsRun(states, actions) && Sound(states[0]) && n <= |actions|
    ensures forall i :: 0 <= i <= n ==> Sound(states[i])
  {
    hide Sound, Next;
    if n > 0 {
      RunSound(states, actions, n - 1);
      NextSound(states[n - 1], actions[n - 1], states[n]);
    }
  }

  lemma {:induction false} SafeWhileNotHollow(states: seq<System>, actions: seq<Action>, n: nat)
    requires IsRun(states, actions) && Sound(states[0]) && Safe(states[0]) && n <= |actions|
    requires forall i :: 0 <= i < n ==> !HollowInsert(states[i], actions[i]) && !HollowMove(states[i], actions[i])
    ensures forall i :: 0 <= i <= n ==> Safe(states[i])
  {
    hide Sound, Safe, Next, HollowInsert, HollowMove;
    if n > 0 {
      SafeWhileNotHollow(states, actions, n - 1);
      RunSound(states, actions, n - 1);
      StepSafeExactly(states[n - 1], actions[n - 1], states[n]);
    }
  }

  /** A run is safe throughout exactly when it has no hollow insert and no hollow move. */
  lemma SafeExactly(states: seq<System>, actions: seq<Action>)
    requires IsRun(states, actions) && states[0] == Start
    ensures (forall i :: 0 <= i < |states| ==> Safe(states[i]))
       <==> (forall i :: 0 <= i < |actions| ==>
         !HollowInsert(states[i], actions[i]) && !HollowMove(states[i], actions[i]))
  {
    hide Sound, Safe, Next, HollowInsert, HollowMove;
    assert Sound(Start) && Safe(Start) by { StartIsSound(); }
    if forall i :: 0 <= i < |actions| ==> !HollowInsert(states[i], actions[i]) && !HollowMove(states[i], actions[i]) {
      SafeWhileNotHollow(states, actions, |actions|);
    } else if forall i :: 0 <= i < |states| ==> Safe(states[i]) {
      var i :| 0 <= i < |actions| && (HollowInsert(states[i], actions[i]) || HollowMove(states[i], actions[i]));
      RunSound(states, actions, i);
      StepSafeExactly(states[i], actions[i], states[i + 1]);
    }
  }

  lemma StartIsSound()
    ensures Sound(Start) && Safe(Start)
  {
  }

  lemma RegisterKeepsRow(s: System, pid: nat, accepted: nat, id: ArtifactId)
    requires pid in s.procs && s.procs[pid].PutRegister? && id in s.rows.artifacts && s.rows.Protected(id)
    ensures var rows := PutStep(s, pid, accepted).rows;
            && id in rows.artifacts && rows.Protected(id) && (s.rows.LiveRow(id) <==> rows.LiveRow(id))
            && rows.artifacts[id].cls == s.rows.artifacts[id].cls
            && rows.artifacts[id].path == s.rows.artifacts[id].path
  {
    assert PutStep(s, pid, accepted).rows.refs == s.rows.refs;
  }

  /** What costs the live row of `id` its flag: being marked, or a crash that finds its file out. */
  predicate Unflags(s: System, a: Action, id: ArtifactId) {
    && s.rows.LiveRow(id)
    && (Marks(s, a, id) || (a.Crash? && s.rows.artifacts[id].path !in s.disk.root))
  }

  /** No step deletes, re-homes or unprotects the row of a pinned or referenced artifact. */
  lemma ProtectedRowStays(s: System, a: Action, s': System, id: ArtifactId)
    requires Sound(s) && Next(s, a, s') && id in s.rows.artifacts && s.rows.Protected(id)
    ensures id in s'.rows.artifacts && s'.rows.Protected(id)
    ensures s'.rows.artifacts[id].cls == s.rows.artifacts[id].cls
            && s'.rows.artifacts[id].path == s.rows.artifacts[id].path
    ensures s'.rows.LiveRow(id) <==> s.rows.LiveRow(id) && !Unflags(s, a, id)
  {
    hide StampsPast, ProcsSound, GcStep, OpenStep, SettleStep, VisitStep;
    if a.Crash? {
      CrashRow(s, s', id);
    } else {
      hide Reconciled, RootSound;
      if a.Step? && s.procs[a.pid].PutRegister? {
        RegisterKeepsRow(s, a.pid, a.accepted, id);
      } else if OpenerActs(s, a) {
        OpenStepFrame(s, a, s');
      } else if a.Step? {
        hide PutStep;
        if s.procs[a.pid].Putting() {
          PutStepFrame(s, a.pid, a.accepted);
        } else {
          OwnSound(s, a.pid);
          GcStepFrame(s, a.pid);
        }
      } else {
        IdleFrame(s, a, s');
      }
    }
  }

  lemma CrashRow(s: System, s': System, id: ArtifactId)
    requires Sound(s) && Next(s, Crash, s') && id in s.rows.artifacts
    ensures id in s'.rows.artifacts && s'.rows.refs == s.rows.refs
    ensures s'.rows.artifacts[id] == s.rows.artifacts[id] || s'.rows.artifacts[id] == Quarantined(s.rows.artifacts[id])
    ensures s'.rows.LiveRow(id) <==> s.rows.LiveRow(id) && s.rows.artifacts[id].path in s.disk.root
  {
  }

  /** The bytes still exist, and no collector is about to unlink them. */
  ghost predicate Kept(s: System, id: ArtifactId) {
    || (exists p :: p in s.disk.root && p.Stored? && p.id == id)
    || (exists q :: q in s.disk.quarantine && Copy(s, q, id) && !Doomed(s, q))
  }

  /** A file that was taken from under a final name of `id`, with the bytes it had there. */
  predicate Copy(s: System, q: QName, id: ArtifactId)
    requires q in s.disk.quarantine
  {
    q.base.Stored? && q.base.id == id && s.disk.quarantine[q] == Regular(id.preimage, true)
  }

  ghost predicate Doomed(s: System, q: QName) {
    exists pid :: pid in s.procs && s.procs[pid].GcUnlink? && s.procs[pid].held == q
  }

  lemma PutStepKeeps(s: System, pid: nat, accepted: nat, id: ArtifactId)
    requires Sound(s) && Kept(s, id) && pid in s.procs && s.procs[pid].Putting()
    ensures Kept(PutStep(s, pid, accepted), id)
  {
    hide PutStep, RowsSound, RootSound, ProcsSound;
    var s' := PutStep(s, pid, accepted);
    PutStepFrame(s, pid, accepted);
    if p :| p in s.disk.root && p.Stored? && p.id == id {
      assert p in s'.disk.root;
    } else {
      var q :| q in s.disk.quarantine && Copy(s, q, id) && !Doomed(s, q);
      assert s'.disk.quarantine[q] == s.disk.quarantine[q];
      assert !Doomed(s', q);
    }
  }

  /** A collector takes a file out of the root: its bytes are then in quarantine. */
  lemma GcNextKeeps(s: System, pid: nat, id: ArtifactId)
    requires Sound(s) && Kept(s, id) && pid in s.procs && s.procs[pid].GcNext?
    ensures Kept(GcStep(s, pid), id)
  {
    hide RowsSound, Separate;
    var todo, s' := s.procs[pid].todo, GcStep(s, pid);
    assert ProcSound(s.disk, s.procs[pid]);
    if todo != [] && todo[0].path in s.disk.root && todo[0].path.id == id {
      var held := QName("gc", s.disk.clock, todo[0].path);
      assert Copy(s', held, id);
      NotYetDoomed(s, pid, s', held);
    } else if path :| path in s.disk.root && path.Stored? && path.id == id {
      assert path in s'.disk.root;
    } else {
      var q :| q in s.disk.quarantine && Copy(s, q, id) && !Doomed(s, q);
      assert q in s'.disk.quarantine && s'.disk.quarantine[q] == s.disk.quarantine[q];
      assert !Doomed(s', q);
    }
  }

  /** A name that has just been made is in nobody's hands. */
  lemma NotYetDoomed(s: System, pid: nat, s': System, q: QName)
    requires ProcsSound(s) && q.stamp == s.disk.clock
    requires pid in s'.procs && s'.procs == s.procs[pid := s'.procs[pid]] && !s'.procs[pid].GcUnlink?
    ensures !Doomed(s', q)
  {
    hide Separate;
    forall i | i in s'.procs && s'.procs[i].GcUnlink?
      ensures s'.procs[i].held != q
    {
      assert ProcSound(s.disk, s.procs[i]);
    }
  }

  /** The rest of a collection: delete the row, give the file back, or unlink it. */
  lemma GcRestKeeps(s: System, pid: nat, id: ArtifactId)
    requires Sound(s) && Kept(s, id) && pid in s.procs && s.procs[pid].Collecting() && !s.procs[pid].GcNext?
    requires id in s.rows.artifacts && s.rows.Protected(id)
    ensures Kept(GcStep(s, pid), id)
  {
    hide RowsSound, Separate, RootSound, CandidatesSound;
    var p, s' := s.procs[pid], GcStep(s, pid);
    assert ProcSound(s.disk, p);
    if path :| path in s.disk.root && path.Stored? && path.id == id {
      assert path in s'.disk.root;
    } else {
      var q :| q in s.disk.quarantine && Copy(s, q, id) && !Doomed(s, q);
      if p.GcRestore? && p.held == q {
        assert p.path in s'.disk.root && p.path.id == id;
      } else {
        assert q in s'.disk.quarantine && s'.disk.quarantine[q] == s.disk.quarantine[q];
        assert !Doomed(s', q);
      }
    }
  }

  lemma GcStepKeeps(s: System, pid: nat, id: ArtifactId)
    requires Sound(s) && Kept(s, id) && pid in s.procs && s.procs[pid].Collecting()
    requires id in s.rows.artifacts && s.rows.Protected(id)
    ensures Kept(GcStep(s, pid), id)
  {
    hide Sound, GcStep, Kept;
    if s.procs[pid].GcNext? {
      GcNextKeeps(s, pid, id);
    } else {
      GcRestKeeps(s, pid, id);
    }
  }

  lemma CrashKeeps(s: System, s': System, id: ArtifactId)
    requires Sound(s) && Kept(s, id) && Next(s, Crash, s')
    ensures Kept(s', id)
  {
    if p :| p in s.disk.root && p.Stored? && p.id == id {
      ReconcileConserves(s.rows, s.disk, s'.rows, s'.disk, p);
      if p !in s'.disk.root {
        var q :| q in s'.disk.quarantine && q !in s.disk.quarantine && q.base == p
          && s'.disk.quarantine[q] == s.disk.root[p];
        assert !Doomed(s', q);
      }
    } else {
      var q :| q in s.disk.quarantine && Copy(s, q, id) && !Doomed(s, q);
      assert q in s'.disk.quarantine && !Doomed(s', q);
    }
  }

  /** A file that an opening process moves is in quarantine afterwards, under a name nobody holds. */
  lemma OpenKeeps(s: System, a: Action, s': System, id: ArtifactId)
    requires Sound(s) && Kept(s, id) && Next(s, a, s') && OpenerActs(s, a)
    ensures Kept(s', id)
  {
    OpenStepFrame(s, a, s');
    hide Next, RowsSound, Separate;
    if p :| p in s.disk.root && p.Stored? && p.id == id {
      if Moves(s, a, p) {
        var q := QName(s.procs[a.pid].reason, s.disk.clock, p);
        assert Copy(s', q, id);
        NotYetDoomed(s, a.pid, s', q);
      } else {
        assert p in s'.disk.root;
      }
    } else {
      var q :| q in s.disk.quarantine && Copy(s, q, id) && !Doomed(s, q);
      assert s'.disk.quarantine[q] == s.disk.quarantine[q];
      assert !Doomed(s', q);
    }
  }

  lemma IdleKeeps(s: System, a: Action, s': System, id: ArtifactId)
    requires Sound(s) && Kept(s, id) && Next(s, a, s') && Idles(a)
    ensures Kept(s', id)
  {
    IdleFrame(s, a, s');
    if p :| p in s.disk.root && p.Stored? && p.id == id {
      assert p in s'.disk.root;
    } else {
      var q :| q in s.disk.quarantine && Copy(s, q, id) && !Doomed(s, q);
      assert s'.disk.quarantine[q] == s.disk.quarantine[q];
      assert !Doomed(s', q) by { IdleSpares(s, a, s', q); }
    }
  }

  lemma IdleSpares(s: System, a: Action, s': System, q: QName)
    requires Next(s, a, s') && Idles(a) && !Doomed(s, q)
    ensures !Doomed(s', q)
  {
    hide RecordAt;
  }

  /** The bytes of a pinned or referenced artifact survive every step, fault and crash. */
  lemma ProtectedBytesKept(s: System, a: Action, s': System, id: ArtifactId)
    requires Sound(s) && Next(s, a, s') && id in s.rows.artifacts && s.rows.Protected(id) && Kept(s, id)
    ensures Kept(s', id)
  {
    hide Sound, Kept, PutStep, GcStep, OpenStep, SettleStep, VisitStep;
    if OpenerActs(s, a) {
      OpenKeeps(s, a, s', id);
    } else if a.Step? {
      if s.procs[a.pid].Putting() {
        PutStepKeeps(s, a.pid, a.accepted, id);
      } else {
        GcStepKeeps(s, a.pid, id);
      }
    } else if a.Crash? {
      CrashKeeps(s, s', id);
    } else {
      IdleKeeps(s, a, s', id);
    }
  }

  /** Over every run, crashes included: a protected artifact is never deleted, neither its row nor its bytes. */
  lemma {:induction false} NeverDeleted(states: seq<System>, actions: seq<Action>, id: ArtifactId, n: nat)
    requires IsRun(states, actions) && Sound(states[0]) && n <= |actions|
    requires id in states[0].rows.artifacts && states[0].rows.Protected(id) && Kept(states[0], id)
    ensures id in states[n].rows.artifacts && states[n].rows.Protected(id) && Kept(states[n], id)
    ensures states[n].rows.artifacts[id].path == states[0].rows.artifacts[id].path
  {
    hide Sound, Kept, Next;
    if n > 0 {
      NeverDeleted(states, actions, id, n - 1);
      RunSound(states, actions, n - 1);
      ProtectedRowStays(states[n - 1], actions[n - 1], states[n], id);
      ProtectedBytesKept(states[n - 1], actions[n - 1], states[n], id);
    }
  }
}
