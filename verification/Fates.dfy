/**
 What becomes of one artifact, told by the actions of the run.

 Its file is here (in place, or in the hands of a collector) until it is swept away, and again once it is linked; its
 row is live until it is marked or a crash finds the file out. `Durable` puts the two together: whether `read` returns
 the bytes of a protected artifact depends on nothing else, whatever happens to other artifacts.
 */
module Fates {
  import opened Prelude
  import opened ArtifactRows
  import opened Storage
  import opened ArtifactProtocol
  import opened Durability

  /** The file at `p` is in place, or in the hands of a collector that has not yet settled its fate. */
  ghost predicate Here(s: System, p: Path) { p in s.disk.root || Held(s, p) }

  ghost predicate NoneHolds(s: System, p: Path, but: nat) {
    forall i :: i in s.procs && i != but ==> !s.procs[i].Holds(p)
  }

  /**
   The only copy of the file at `p` goes: its collector deletes the row, an opening process moves it to quarantine, or a
   crash leaves it in quarantine or finds no live row for it.
   */
  ghost predicate Sweeps(s: System, a: Action, p: Path) {
    || (&& a.Step? && a.pid in s.procs && s.procs[a.pid].GcDelete? && s.procs[a.pid].path == p
        && DeleteRow(s.rows, s.procs[a.pid].id).Ok? && p !in s.disk.root && NoneHolds(s, p, a.pid))
    || (Moves(s, a, p) && !Held(s, p))
    || (a.Crash? && !(p in s.disk.root && Accounted(s.rows, s.disk.root, p)))
  }

  /** A put gives its complete temporary file the name `p`. */
  predicate Links(s: System, a: Action, p: Path) {
    && a.Step? && a.pid in s.procs && s.procs[a.pid].PutLink? && s.procs[a.pid].q.Destination() == p
    && s.procs[a.pid].q.Temporary(s.procs[a.pid].stamp) in s.disk.root && p !in s.disk.root
  }

  // ---------------------------------------------------------------- single steps

  lemma SoundOwn(s: System, pid: nat)
    requires Sound(s) && pid in s.procs
    ensures ProcSound(s.disk, s.procs[pid])
  {
    hide RowsSound, RootSound, StampsPast, ProcSound, Separate;
  }

  lemma PutStepHere(s: System, pid: nat, accepted: nat, p: Path)
    requires pid in s.procs && s.procs[pid].Putting() && p.Stored? && Here(s, p)
    ensures Here(PutStep(s, pid, accepted), p)
  {
    hide PutStep, Held;
    PutStepFrame(s, pid, accepted);
    PutStepHeld(s, pid, accepted, p);
  }

  lemma GcStepHere(s: System, pid: nat, p: Path)
    requires Sound(s) && pid in s.procs && s.procs[pid].Collecting() && Here(s, p) && GcStep(s, pid).rows == s.rows
    ensures Here(GcStep(s, pid), p)
  {
    hide GcStep, Sound;
    var s' := GcStep(s, pid);
    SoundOwn(s, pid);
    GcStepFrame(s, pid);
    if !(p in s'.disk.root || s'.procs[pid].Holds(p)) {
      HeldElsewhere(s, s', pid, p);
    }
  }

  lemma VanishByGc(s: System, pid: nat, accepted: nat, p: Path)
    requires Sound(s) && pid in s.procs && s.procs[pid].Collecting() && p.Stored?
    requires Here(s, p) && !Here(GcStep(s, pid), p)
    ensures Sweeps(s, Step(pid, accepted), p)
  {
    SoundOwn(s, pid);
    hide Sound;
    var s' := GcStep(s, pid);
    if s'.rows == s.rows {
      GcStepHere(s, pid, p);
    }
    GcStepFrame(s, pid);
    forall i | i in s.procs && i != pid
      ensures !s.procs[i].Holds(p)
    {
      assert s'.procs[i] == s.procs[i];
    }
  }

  lemma OpenHere(s: System, a: Action, s': System, p: Path)
    requires Next(s, a, s') && OpenerActs(s, a)
    ensures Here(s', p) <==> Here(s, p) && !(Moves(s, a, p) && !Held(s, p))
  {
    OpenStepFrame(s, a, s');
    OpenHeld(s, a, s', p);
    hide Next, Held;
  }

  lemma IdleHere(s: System, a: Action, s': System, p: Path)
    requires Next(s, a, s') && Idles(a) && p.Stored?
    ensures Here(s', p) <==> Here(s, p)
  {
    IdleFrame(s, a, s');
    hide Next, Held;
  }

  lemma CrashHere(s: System, s': System, p: Path)
    requires Sound(s) && Next(s, Crash, s') && p.Stored?
    ensures Here(s', p) <==> p in s.disk.root && Accounted(s.rows, s.disk.root, p)
  {
    if p in s.disk.root {
      ReconcileConserves(s.rows, s.disk, s'.rows, s'.disk, p);
    }
  }

  /** What was here and is not any more was swept away. */
  lemma VanishIsSweep(s: System, a: Action, s': System, p: Path)
    requires Sound(s) && Next(s, a, s') && p.Stored? && Here(s, p) && !Here(s', p)
    ensures Sweeps(s, a, p)
  {
    hide Sound, PutStep, GcStep, OpenStep, SettleStep, VisitStep, Here, Held;
    if a.Crash? {
      CrashHere(s, s', p);
    } else if OpenerActs(s, a) {
      OpenHere(s, a, s', p);
    } else if !a.Step? {
      IdleHere(s, a, s', p);
    } else if s.procs[a.pid].Putting() {
      PutStepHere(s, a.pid, a.accepted, p);
    } else {
      VanishByGc(s, a.pid, a.accepted, p);
    }
  }

  lemma GcSweepVanishes(s: System, pid: nat, p: Path)
    requires Sound(s) && pid in s.procs && s.procs[pid].GcDelete? && s.procs[pid].path == p
    requires DeleteRow(s.rows, s.procs[pid].id).Ok? && p !in s.disk.root && NoneHolds(s, p, pid)
    ensures !Here(GcStep(s, pid), p)
  {
    hide Sound;
  }

  lemma SweepVanishes(s: System, a: Action, s': System, p: Path)
    requires Sound(s) && Next(s, a, s') && p.Stored? && Sweeps(s, a, p)
    ensures !Here(s', p)
  {
    hide Sound, PutStep, GcStep, OpenStep, SettleStep, VisitStep, Here, Held, DeleteRow;
    if a.Crash? {
      CrashHere(s, s', p);
    } else if Moves(s, a, p) {
      OpenHere(s, a, s', p);
    } else {
      GcSweepVanishes(s, a.pid, p);
    }
  }

  lemma PutGoneStays(s: System, pid: nat, accepted: nat, p: Path)
    requires pid in s.procs && s.procs[pid].Putting() && p.Stored? && !Here(s, p) && !Links(s, Step(pid, accepted), p)
    ensures !Here(PutStep(s, pid, accepted), p)
  {
    hide Register, Held;
    PutStepHeld(s, pid, accepted, p);
  }

  lemma GcGoneStays(s: System, pid: nat, p: Path)
    requires pid in s.procs && s.procs[pid].Collecting() && !Here(s, p)
    ensures !Here(GcStep(s, pid), p)
  {
    hide DeleteRow;
    var s' := GcStep(s, pid);
    assert !s.procs[pid].Holds(p);
    forall i | i in s'.procs && i != pid
      ensures !s'.procs[i].Holds(p)
    {
      assert s'.procs[i] == s.procs[i];
    }
  }

  /** What is gone comes back only when it is linked again. */
  lemma GoneStays(s: System, a: Action, s': System, p: Path)
    requires Sound(s) && Next(s, a, s') && p.Stored? && !Here(s, p) && !Links(s, a, p)
    ensures !Here(s', p)
  {
    if a.Crash? {
      CrashHere(s, s', p);
    }
    hide Sound, PutStep, GcStep, OpenStep, SettleStep, VisitStep, Held;
    if OpenerActs(s, a) {
      OpenHere(s, a, s', p);
    } else if a.Step? {
      if s.procs[a.pid].Putting() {
        PutGoneStays(s, a.pid, a.accepted, p);
      } else {
        GcGoneStays(s, a.pid, p);
      }
    } else if !a.Crash? {
      IdleHere(s, a, s', p);
    }
  }

  lemma LinkBrings(s: System, a: Action, s': System, p: Path)
    requires Next(s, a, s') && Links(s, a, p)
    ensures Here(s', p)
  {
  }

  // ---------------------------------------------------------------- whole runs

  /** Swept away at `j`, and not linked again before `n`. */
  ghost predicate Gone(states: seq<System>, actions: seq<Action>, j: nat, n: nat, p: Path)
    requires n <= |actions| < |states|
  {
    j < n && Sweeps(states[j], actions[j], p) && forall k :: j < k < n ==> !Links(states[k], actions[k], p)
  }

  lemma {:induction false} GoneAfter(states: seq<System>, actions: seq<Action>, p: Path, j: nat, n: nat)
    requires IsRun(states, actions) && Sound(states[0]) && n <= |actions| && p.Stored? && Gone(states, actions, j, n, p)
    ensures !Here(states[n], p)
  {
    hide Sound, Next, Sweeps, Links, Here;
    RunSound(states, actions, n);
    if n == j + 1 {
      SweepVanishes(states[j], actions[j], states[n], p);
    } else {
      GoneAfter(states, actions, p, j, n - 1);
      GoneStays(states[n - 1], actions[n - 1], states[n], p);
    }
  }

  lemma {:induction false} SweptBetween(states: seq<System>, actions: seq<Action>, p: Path, m: nat, n: nat)
    returns (j: nat)
    requires IsRun(states, actions) && Sound(states[0]) && m <= n <= |actions| && p.Stored?
    requires Here(states[m], p) && !Here(states[n], p)
    ensures m <= j < n && Gone(states, actions, j, n, p)
  {
    hide Sound, Next, Sweeps, Links, Here;
    RunSound(states, actions, n);
    var last := n - 1;
    if Here(states[last], p) {
      j := last;
      VanishIsSweep(states[j], actions[j], states[n], p);
    } else {
      j := SweptBetween(states, actions, p, m, last);
      if Links(states[last], actions[last], p) {
        LinkBrings(states[last], actions[last], states[n], p);
      }
    }
  }

  /** A file that was here is still here exactly if it was not swept away without being linked again. */
  lemma HereExactly(states: seq<System>, actions: seq<Action>, p: Path, m: nat, n: nat)
    requires IsRun(states, actions) && Sound(states[0]) && m <= n <= |actions| && p.Stored? && Here(states[m], p)
    ensures Here(states[n], p) <==> forall j :: m <= j < n ==> !Gone(states, actions, j, n, p)
  {
    hide Next, Sound, Gone, Held;
    if !Here(states[n], p) {
      var j := SweptBetween(states, actions, p, m, n);
    }
    if j :| m <= j < n && Gone(states, actions, j, n, p) {
      GoneAfter(states, actions, p, j, n);
    }
  }

  /** A protected row stays, and is live exactly if nothing has cost it its flag. */
  lemma {:induction false} LiveExactly(states: seq<System>, actions: seq<Action>, id: ArtifactId, m: nat, n: nat)
    requires IsRun(states, actions) && Sound(states[0]) && m <= n <= |actions|
    requires states[m].rows.LiveRow(id) && states[m].rows.Protected(id)
    ensures id in states[n].rows.artifacts && states[n].rows.Protected(id)
    ensures states[n].rows.artifacts[id].cls == states[m].rows.artifacts[id].cls
    ensures states[n].rows.artifacts[id].path == states[m].rows.artifacts[id].path
    ensures states[n].rows.LiveRow(id) <==> forall i :: m <= i < n ==> !Unflags(states[i], actions[i], id)
  {
    hide Sound, Next, Unflags;
    if n > m {
      LiveExactly(states, actions, id, m, n - 1);
      RunSound(states, actions, n - 1);
      ProtectedRowStays(states[n - 1], actions[n - 1], states[n], id);
    }
  }

  /** Protected and live, with its file here. */
  ghost predicate SafeFor(s: System, id: ArtifactId) {
    s.rows.LiveRow(id) && s.rows.Protected(id) && Here(s, s.rows.artifacts[id].path)
  }

  /** Nothing between `m` and `n` cost the row of `id` its flag, or its path the file. */
  ghost predicate Spared(states: seq<System>, actions: seq<Action>, id: ArtifactId, p: Path, m: nat, n: nat)
    requires n <= |actions| < |states|
  {
    && (forall i :: m <= i < n ==> !Unflags(states[i], actions[i], id))
    && (forall j :: m <= j < n ==> !Gone(states, actions, j, n, p))
  }

  lemma RowIs(s: System, id: ArtifactId)
    requires Sound(s) && id in s.rows.artifacts
    ensures s.rows.artifacts[id].path == Stored(s.rows.artifacts[id].cls, id)
    ensures s.rows.artifacts[id].size == |id.preimage|
  {
    hide RootSound, ProcsSound, StampsPast;
  }

  /** When no collector holds its file, a live row reads back exactly if its file is here. */
  lemma ReadsBack(s: System, id: ArtifactId)
    requires Sound(s) && id in s.rows.artifacts && !Held(s, s.rows.artifacts[id].path)
    ensures Read(s.rows, s.disk.root, id, {s.rows.artifacts[id].cls})
         == if s.rows.LiveRow(id) && Here(s, s.rows.artifacts[id].path) then Some(id.preimage) else None
  {
    RowIs(s, id);
    hide RowsSound, ProcsSound, StampsPast;
  }

  /**
   Durability of one artifact, exactly. Once it is protected and live with its file here, then after any further
   interleaving, and whenever no collector holds that file, `read` returns exactly its bytes if nothing on the way cost
   the row its flag or the path its file, and nothing otherwise.
   */
  lemma Durable(states: seq<System>, actions: seq<Action>, id: ArtifactId, m: nat, n: nat)
    requires IsRun(states, actions) && Sound(states[0]) && m <= n <= |actions| && SafeFor(states[m], id)
    requires !Held(states[n], states[m].rows.artifacts[id].path)
    ensures var row := states[m].rows.artifacts[id];
            Read(states[n].rows, states[n].disk.root, id, {row.cls})
            == if Spared(states, actions, id, row.path, m, n) then Some(id.preimage) else None
  {
    hide Sound, Next, Held, Unflags, Gone;
    var p := states[m].rows.artifacts[id].path;
    RunSound(states, actions, n);
    RowIs(states[m], id);
    LiveExactly(states, actions, id, m, n);
    HereExactly(states, actions, p, m, n);
    ReadsBack(states[n], id);
  }

  /** The registering step of a put that then returns. */
  ghost predicate Returns(s: System, a: Action, s': System) {
    a.Step? && a.pid in s.procs && s.procs[a.pid].PutRegister? && a.pid in s'.procs && s'.procs[a.pid].PutReturned?
  }

  /**
   When put returns, its artifact is registered and live under its own class and path, and its file is here exactly if
   it was.
   */
  lemma PutReturns(s: System, a: Action, s': System)
    requires Sound(s) && Next(s, a, s') && Returns(s, a, s')
    ensures var q := s.procs[a.pid].q;
            && s'.rows.LiveRow(q.Id()) && (q.pinned ==> s'.rows.Protected(q.Id()))
            && s'.rows.artifacts[q.Id()].cls == q.cls
            && s'.rows.artifacts[q.Id()].path == q.Destination() == s.procs[a.pid].path
            && (Here(s, q.Destination()) <==> Here(s', q.Destination()))
  {
    hide RootSound, StampsPast, Separate;
    assert ProcSound(s.disk, s.procs[a.pid]);
    PutStepHeld(s, a.pid, a.accepted, s.procs[a.pid].q.Destination());
    hide Held;
  }

  /** From the return of a put that registered with its file here, and while the artifact is pinned or referenced. */
  lemma PutIsDurable(states: seq<System>, actions: seq<Action>, m: nat, n: nat)
    requires IsRun(states, actions) && states[0] == Start && m < n <= |actions|
    requires Returns(states[m], actions[m], states[m + 1]) && Here(states[m], states[m].procs[actions[m].pid].path)
    requires var q := states[m].procs[actions[m].pid].q;
             states[m + 1].rows.Protected(q.Id()) && !Held(states[n], q.Destination())
    ensures var q := states[m].procs[actions[m].pid].q;
            Read(states[n].rows, states[n].disk.root, q.Id(), {q.cls})
            == if Spared(states, actions, q.Id(), q.Destination(), m + 1, n) then Some(q.content) else None
  {
    hide Sound, Next, Here, Spared;
    StartIsSound();
    RunSound(states, actions, m);
    PutReturns(states[m], actions[m], states[m + 1]);
    Durable(states, actions, states[m].procs[actions[m].pid].q.Id(), m + 1, n);
  }
}
