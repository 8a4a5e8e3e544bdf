/**
 When a put returns without its file, and when an opening process takes a registered file away, told by the actions of
 the run alone.

 A put checks its file once, last, and registers later; an opening process looks a path up and moves it later.
 `OvertakenExactly` and `RegisteredSinceExactly` say what must have happened in between. `SafeExactlyByActions`: a run
 is safe throughout if and only if neither kind of race takes place in it.
 */
module Overtaking {
  import opened Prelude
  import opened ArtifactRows
  import opened Storage
  import opened ArtifactProtocol
  import opened Durability
  import opened Fates

  // ---------------------------------------------------------------- the put

  /** The put of `q` has made its last check of the file. */
  predicate Checked(s: System, pid: nat, q: PutRequest) {
    pid in s.procs && (s.procs[pid].PutUnlink? || s.procs[pid].PutRegister?) && s.procs[pid].q == q
  }

  /** Step `v` is the last check before `i`. */
  predicate LastCheck(states: seq<System>, pid: nat, q: PutRequest, v: nat, i: nat)
    requires i < |states|
  {
    v < i && !Checked(states[v], pid, q) && forall k :: v < k <= i ==> Checked(states[k], pid, q)
  }

  /** Between the last check and `i` the file was swept away and not linked again. */
  ghost predicate Overtaken(states: seq<System>, actions: seq<Action>, pid: nat, q: PutRequest, i: nat)
    requires i <= |actions| < |states|
  {
    exists v: nat, j: nat ::
      LastCheck(states, pid, q, v, i) && v < j < i && Gone(states, actions, j, i, q.Destination())
  }

  /** A check passes only with the file in place. */
  lemma CheckFindsFile(s: System, a: Action, s': System, pid: nat, q: PutRequest)
    requires Sound(s) && Next(s, a, s') && !Checked(s, pid, q) && Checked(s', pid, q)
    ensures q.Destination() in s'.disk.root
  {
    hide GcStep, OpenStep, SettleStep, VisitStep, PutStep;
    if OpenerActs(s, a) {
      OpenProcs(s, a, s');
    } else if a.Visit? {
      VisitStaysOpen(s, a.pid, a.path);
    } else if a.Step? && s.procs[a.pid].Collecting() {
      SoundOwn(s, a.pid);
      GcStepFrame(s, a.pid);
      GcStaysGc(s, a.pid);
    } else if a.Step? {
      CheckByPut(s, a.pid, a.accepted, pid, q);
    }
  }

  lemma VisitStaysOpen(s: System, pid: nat, p: Path)
    requires pid in s.procs && s.procs[pid].OpenWalk?
    ensures var s' := VisitStep(s, pid, p);
            pid in s'.procs && s'.procs[pid].Opening() && s'.procs == s.procs[pid := s'.procs[pid]]
  {
    hide RecordAt;
  }

  lemma CheckByPut(s: System, actor: nat, accepted: nat, pid: nat, q: PutRequest)
    requires Sound(s) && actor in s.procs && s.procs[actor].Putting()
    requires !Checked(s, pid, q) && Checked(PutStep(s, actor, accepted), pid, q)
    ensures q.Destination() in PutStep(s, actor, accepted).disk.root
  {
    SoundOwn(s, actor);
    hide Sound, Register;
  }

  lemma GcStaysGc(s: System, pid: nat)
    requires pid in s.procs && s.procs[pid].Collecting()
    ensures var p := GcStep(s, pid).procs[pid]; p.Collecting() || p == Stopped
  {
  }

  /** A put that is about to register has a last check behind it, which found the file. */
  lemma {:induction false} HasLastCheck(states: seq<System>, actions: seq<Action>, pid: nat, q: PutRequest, i: nat)
    returns (v: nat)
    requires IsRun(states, actions) && states[0] == Start && i <= |actions| && Checked(states[i], pid, q)
    ensures LastCheck(states, pid, q, v, i) && q.Destination() in states[v + 1].disk.root
  {
    hide Sound, Next, Checked;
    assert !Checked(states[0], pid, q) by { NoneAtStart(pid, q); }
    if Checked(states[i - 1], pid, q) {
      v := HasLastCheck(states, actions, pid, q, i - 1);
    } else {
      v := i - 1;
      StartIsSound();
      RunSound(states, actions, v);
      CheckFindsFile(states[v], actions[v], states[i], pid, q);
    }
  }

  lemma NoneAtStart(pid: nat, q: PutRequest)
    ensures !Checked(Start, pid, q)
  {
  }

  lemma GoneWasOvertaken(states: seq<System>, actions: seq<Action>, pid: nat, q: PutRequest, i: nat)
    requires IsRun(states, actions) && states[0] == Start && i <= |actions| && Checked(states[i], pid, q)
    requires !Here(states[i], q.Destination())
    ensures Overtaken(states, actions, pid, q, i)
  {
    hide Next, Held, Gone, Checked, LastCheck, Sound;
    StartIsSound();
    var v := HasLastCheck(states, actions, pid, q, i);
    CheckBefore(states, pid, q, v, i);
    var j := SweptBetween(states, actions, q.Destination(), v + 1, i);
  }

  lemma CheckBefore(states: seq<System>, pid: nat, q: PutRequest, v: nat, i: nat)
    requires i < |states| && LastCheck(states, pid, q, v, i)
    ensures v < i
  {
  }

  /** At the registration the file is gone exactly if the put was overtaken after its last check. */
  lemma OvertakenExactly(states: seq<System>, actions: seq<Action>, pid: nat, q: PutRequest, i: nat)
    requires IsRun(states, actions) && states[0] == Start && i <= |actions| && Checked(states[i], pid, q)
    ensures !Here(states[i], q.Destination()) <==> Overtaken(states, actions, pid, q, i)
  {
    hide Next, Here, Gone, Checked, LastCheck, Sound;
    StartIsSound();
    if !Here(states[i], q.Destination()) {
      GoneWasOvertaken(states, actions, pid, q, i);
    }
    if Overtaken(states, actions, pid, q, i) {
      var v: nat, j: nat :|
        LastCheck(states, pid, q, v, i) && v < j < i && Gone(states, actions, j, i, q.Destination());
      GoneAfter(states, actions, q.Destination(), j, i);
    }
  }

  // ---------------------------------------------------------------- the opening process

  /** The opening process has decided to move the file at `p`. */
  predicate Decided(s: System, pid: nat, p: Path) {
    pid in s.procs && s.procs[pid].OpenMove? && s.procs[pid].path == p
  }

  /** Step `v` is where it looked, before `i`. */
  predicate LastLook(states: seq<System>, pid: nat, p: Path, v: nat, i: nat)
    requires i < |states|
  {
    v < i && !Decided(states[v], pid, p) && forall k :: v < k <= i ==> Decided(states[k], pid, p)
  }

  /** The file at `p` has a live row. */
  predicate LiveAt(s: System, p: Path) { p.Stored? && s.rows.LiveRow(p.id) && s.rows.artifacts[p.id].path == p }

  /** A put registers `p` and returns. */
  ghost predicate Registers(s: System, a: Action, s': System, p: Path) {
    Returns(s, a, s') && s.procs[a.pid].path == p
  }

  /** The row of `p` is deleted or loses its flag. */
  ghost predicate Unlives(s: System, a: Action, p: Path)
    requires p.Stored?
  {
    || Unflags(s, a, p.id)
    || (a.Step? && a.pid in s.procs && s.procs[a.pid].GcDelete? && s.procs[a.pid].id == p.id
      && DeleteRow(s.rows, p.id).Ok?)
  }

  /** Between the look and `i` a put registered `p`, and the row has been live since. */
  ghost predicate RegisteredSince(states: seq<System>, actions: seq<Action>, pid: nat, p: Path, i: nat)
    requires i <= |actions| < |states| && p.Stored?
  {
    exists v: nat, j: nat :: LastLook(states, pid, p, v, i) && v < j < i && Registered(states, actions, p, j, i)
  }

  ghost predicate Registered(states: seq<System>, actions: seq<Action>, p: Path, j: nat, i: nat)
    requires i <= |actions| < |states| && p.Stored?
  {
    && j < i && Registers(states[j], actions[j], states[j + 1], p)
    && forall k :: j < k < i ==> !Unlives(states[k], actions[k], p)
  }

  /** It decides to move only what has no live row at that moment. */
  lemma LookFindsNoRow(s: System, a: Action, s': System, pid: nat, p: Path)
    requires Sound(s) && Next(s, a, s') && !Decided(s, pid, p) && Decided(s', pid, p)
    ensures !LiveAt(s', p)
  {
    hide PutStep, GcStep, SettleStep;
    if a.Visit? {
      LookByVisit(s, a.pid, a.path, pid, p);
    } else if OpenerActs(s, a) {
      OpenProcs(s, a, s');
      if a.Settle? {
        SettleStaysClosed(s, a.pid, a.id);
      } else {
        NeverTampered(s, a.pid);
      }
    } else if a.Step? && s.procs[a.pid].Putting() {
      PutStepFrame(s, a.pid, a.accepted);
      PutStaysPut(s, a.pid, a.accepted);
    } else if a.Step? {
      SoundOwn(s, a.pid);
      GcStepFrame(s, a.pid);
      GcStaysGc(s, a.pid);
    }
  }

  lemma PutStaysPut(s: System, pid: nat, accepted: nat)
    requires pid in s.procs && s.procs[pid].Putting()
    ensures !PutStep(s, pid, accepted).procs[pid].Opening()
  {
    hide Register;
  }

  lemma SettleStaysClosed(s: System, pid: nat, id: ArtifactId)
    requires pid in s.procs && s.procs[pid].OpenClose?
    ensures !SettleStep(s, pid, id).procs[pid].OpenMove?
  {
    hide Quarantine;
  }

  /** In a sound system no file under a final name fails its verification. */
  lemma NeverTampered(s: System, pid: nat)
    requires Sound(s) && pid in s.procs && s.procs[pid].Opening()
    ensures !OpenStep(s, pid).procs[pid].OpenMove?
  {
    SoundOwn(s, pid);
    hide ProcsSound, RowsSound, StampsPast, Quarantine;
  }

  lemma LookByVisit(s: System, actor: nat, at: Path, pid: nat, p: Path)
    requires Sound(s) && actor in s.procs && s.procs[actor].OpenWalk?
    requires !Decided(s, pid, p) && Decided(VisitStep(s, actor, at), pid, p)
    ensures !LiveAt(VisitStep(s, actor, at), p)
  {
    RecordIsOwn(s.rows, at);
    assert pid == actor && p == at;
    assert s.disk.root[p] != Irregular by { RegularFile(s, p); }
    hide Sound, RecordAt;
  }

  lemma RegularFile(s: System, p: Path)
    requires Sound(s) && p in s.disk.root
    ensures s.disk.root[p].Regular?
  {
    hide RowsSound, ProcsSound, StampsPast;
  }

  lemma RegisterBrings(s: System, a: Action, s': System, p: Path)
    requires Sound(s) && Next(s, a, s') && Registers(s, a, s', p)
    ensures LiveAt(s', p)
  {
    PutReturns(s, a, s');
    hide Next, Sound;
  }

  /** A registration leaves other rows alone, and its own one live, if it returns. */
  lemma RegisterRow(s: System, pid: nat, accepted: nat, p: Path)
    requires Sound(s) && p.Stored? && pid in s.procs && s.procs[pid].PutRegister?
    ensures LiveAt(s, p) ==> LiveAt(PutStep(s, pid, accepted), p)
    ensures !LiveAt(s, p) && LiveAt(PutStep(s, pid, accepted), p) ==>
      PutStep(s, pid, accepted).procs[pid].PutReturned? && s.procs[pid].path == p
  {
    SoundOwn(s, pid);
    hide RootSound, StampsPast, ProcsSound;
  }

  lemma OpenRow(s: System, a: Action, s': System, p: Path)
    requires OpenFrame(s, a, s') && OpenerActs(s, a) && p.Stored?
    ensures LiveAt(s, p) ==> (LiveAt(s', p) <==> !Marks(s, a, p.id))
    ensures LiveAt(s', p) ==> LiveAt(s, p)
  {
    hide Marks, Moves;
  }

  lemma RowMoves(s: System, a: Action, s': System, p: Path)
    requires Sound(s) && Next(s, a, s') && p.Stored?
    ensures LiveAt(s, p) ==> (LiveAt(s', p) <==> !Unlives(s, a, p))
    ensures !LiveAt(s, p) && LiveAt(s', p) ==> Registers(s, a, s', p)
  {
    hide Sound, GcStep, OpenStep, SettleStep, VisitStep, PutStep, DeleteRow, Reconciled;
    if a.Crash? {
      if p.id in s.rows.artifacts {
        CrashRow(s, s', p.id);
      }
      CrashKeys(s, s');
    } else if OpenerActs(s, a) {
      OpenStepFrame(s, a, s');
      OpenRow(s, a, s', p);
      hide OpenFrame;
    } else if a.Step? && s.procs[a.pid].PutRegister? {
      RegisterRow(s, a.pid, a.accepted, p);
      PutStepFrame(s, a.pid, a.accepted);
    } else if a.Step? && s.procs[a.pid].Putting() {
      PutStepFrame(s, a.pid, a.accepted);
    } else if a.Step? {
      GcRow(s, a.pid, a.accepted, p);
    } else {
      IdleFrame(s, a, s');
    }
  }

  lemma CrashKeys(s: System, s': System)
    requires Next(s, Crash, s')
    ensures s'.rows.artifacts.Keys == s.rows.artifacts.Keys
  {
  }

  lemma GcRow(s: System, pid: nat, accepted: nat, p: Path)
    requires Sound(s) && p.Stored? && pid in s.procs && s.procs[pid].Collecting()
    ensures LiveAt(s, p) ==> (LiveAt(GcStep(s, pid), p) <==> !Unlives(s, Step(pid, accepted), p))
    ensures LiveAt(GcStep(s, pid), p) ==> LiveAt(s, p)
  {
    SoundOwn(s, pid);
    hide Sound;
  }

  lemma {:induction false} HasLastLook(states: seq<System>, actions: seq<Action>, pid: nat, p: Path, i: nat)
    returns (v: nat)
    requires IsRun(states, actions) && states[0] == Start && i <= |actions| && Decided(states[i], pid, p)
    ensures LastLook(states, pid, p, v, i) && !LiveAt(states[v + 1], p)
  {
    hide Sound, Next, Decided, LiveAt;
    assert !Decided(states[0], pid, p) by { NoneDecided(pid, p); }
    if Decided(states[i - 1], pid, p) {
      v := HasLastLook(states, actions, pid, p, i - 1);
    } else {
      v := i - 1;
      StartIsSound();
      RunSound(states, actions, v);
      LookFindsNoRow(states[v], actions[v], states[i], pid, p);
    }
  }

  lemma NoneDecided(pid: nat, p: Path)
    ensures !Decided(Start, pid, p)
  {
  }

  lemma {:induction false} RegisteredBetween(states: seq<System>, actions: seq<Action>, p: Path, m: nat, n: nat)
    returns (j: nat)
    requires IsRun(states, actions) && Sound(states[0]) && m <= n <= |actions| && p.Stored?
    requires !LiveAt(states[m], p) && LiveAt(states[n], p)
    ensures m <= j < n && Registered(states, actions, p, j, n)
  {
    hide Sound, Next, LiveAt, Registers, Unlives;
    RunSound(states, actions, n);
    var last := n - 1;
    RowMoves(states[last], actions[last], states[n], p);
    if LiveAt(states[last], p) {
      j := RegisteredBetween(states, actions, p, m, last);
    } else {
      j := last;
    }
  }

  lemma {:induction false} LiveSince(states: seq<System>, actions: seq<Action>, p: Path, j: nat, n: nat)
    requires IsRun(states, actions) && Sound(states[0]) && n <= |actions| && p.Stored?
    requires Registered(states, actions, p, j, n)
    ensures LiveAt(states[n], p)
  {
    hide Sound, Next, LiveAt, Registers, Unlives;
    RunSound(states, actions, n);
    if n == j + 1 {
      RegisterBrings(states[j], actions[j], states[n], p);
    } else {
      LiveSince(states, actions, p, j, n - 1);
      RowMoves(states[n - 1], actions[n - 1], states[n], p);
    }
  }

  /** When it moves the file, the file has a live row exactly if a put registered it since the look. */
  lemma RegisteredSinceExactly(states: seq<System>, actions: seq<Action>, pid: nat, p: Path, i: nat)
    requires IsRun(states, actions) && states[0] == Start && i <= |actions| && p.Stored? && Decided(states[i], pid, p)
    ensures LiveAt(states[i], p) <==> RegisteredSince(states, actions, pid, p, i)
  {
    hide Next, LiveAt, Registered, Decided, LastLook, Sound;
    StartIsSound();
    if LiveAt(states[i], p) {
      var v := HasLastLook(states, actions, pid, p, i);
      LookBefore(states, pid, p, v, i);
      var j := RegisteredBetween(states, actions, p, v + 1, i);
    }
    if RegisteredSince(states, actions, pid, p, i) {
      var v: nat, j: nat :| LastLook(states, pid, p, v, i) && v < j < i && Registered(states, actions, p, j, i);
      LiveSince(states, actions, p, j, i);
    }
  }

  lemma LookBefore(states: seq<System>, pid: nat, p: Path, v: nat, i: nat)
    requires i < |states| && LastLook(states, pid, p, v, i)
    ensures v < i
  {
  }

  // ---------------------------------------------------------------- safety of whole runs

  /** No put of the run returns after having been overtaken. */
  ghost predicate NoneOvertaken(states: seq<System>, actions: seq<Action>)
    requires |states| == |actions| + 1
  {
    forall i :: 0 <= i < |actions| && Returns(states[i], actions[i], states[i + 1]) ==>
      !Overtaken(states, actions, actions[i].pid, states[i].procs[actions[i].pid].q, i)
  }

  /** No opening process moves the only copy of a file that was registered since it looked. */
  ghost predicate NoneTakenAway(states: seq<System>, actions: seq<Action>)
    requires |states| == |actions| + 1
  {
    forall i, p: Path :: 0 <= i < |actions| && p.Stored? && Moves(states[i], actions[i], p) && !Held(states[i], p) ==>
      !RegisteredSince(states, actions, actions[i].pid, p, i)
  }

  lemma HollowReturns(s: System, a: Action, s': System)
    requires Sound(s) && Next(s, a, s') && HollowInsert(s, a)
    ensures Returns(s, a, s') && !Here(s, s.procs[a.pid].q.Destination())
  {
    hide RootSound, StampsPast, Separate;
    assert ProcSound(s.disk, s.procs[a.pid]);
  }

  lemma ReturnsUnsafe(s: System, a: Action, s': System)
    requires Sound(s) && Next(s, a, s') && Returns(s, a, s') && !Here(s, s.procs[a.pid].q.Destination())
    ensures !Safe(s')
  {
    PutReturns(s, a, s');
    hide Next, Sound;
  }

  lemma HollowMoveIs(s: System, a: Action)
    requires Sound(s)
    ensures HollowMove(s, a) <==> exists p: Path :: p.Stored? && Moves(s, a, p) && !Held(s, p) && LiveAt(s, p)
  {
    hide RootSound, ProcsSound, StampsPast, Held;
    if id :| s.rows.LiveRow(id) && Moves(s, a, s.rows.artifacts[id].path) && !Held(s, s.rows.artifacts[id].path) {
      assert LiveAt(s, s.rows.artifacts[id].path);
    }
    if p: Path :| p.Stored? && Moves(s, a, p) && !Held(s, p) && LiveAt(s, p) {
      assert s.rows.LiveRow(p.id);
    }
  }

  lemma InsertsExactly(states: seq<System>, actions: seq<Action>)
    requires IsRun(states, actions) && states[0] == Start
    ensures (exists i :: 0 <= i < |actions| && HollowInsert(states[i], actions[i])) ==> !NoneOvertaken(states, actions)
    ensures (forall i :: 0 <= i < |states| ==> Safe(states[i])) ==> NoneOvertaken(states, actions)
  {
    hide Next, Sound, Overtaken, Here, Safe, HollowInsert;
    StartIsSound();
    if i :| 0 <= i < |actions| && HollowInsert(states[i], actions[i]) {
      RunSound(states, actions, i);
      HollowReturns(states[i], actions[i], states[i + 1]);
      OvertakenExactly(states, actions, actions[i].pid, states[i].procs[actions[i].pid].q, i);
    }
    if i :| 0 <= i < |actions| && Returns(states[i], actions[i], states[i + 1])
            && Overtaken(states, actions, actions[i].pid, states[i].procs[actions[i].pid].q, i) {
      RunSound(states, actions, i);
      OvertakenExactly(states, actions, actions[i].pid, states[i].procs[actions[i].pid].q, i);
      ReturnsUnsafe(states[i], actions[i], states[i + 1]);
    }
  }

  lemma MovesExactly(states: seq<System>, actions: seq<Action>)
    requires IsRun(states, actions) && states[0] == Start
    ensures (exists i :: 0 <= i < |actions| && HollowMove(states[i], actions[i])) <==> !NoneTakenAway(states, actions)
  {
    hide Next, Sound, RegisteredSince, Held, LiveAt, HollowMove;
    StartIsSound();
    if i :| 0 <= i < |actions| && HollowMove(states[i], actions[i]) {
      RunSound(states, actions, i);
      HollowMoveIs(states[i], actions[i]);
      var p: Path :| p.Stored? && Moves(states[i], actions[i], p) && !Held(states[i], p) && LiveAt(states[i], p);
      RegisteredSinceExactly(states, actions, actions[i].pid, p, i);
    }
    if !NoneTakenAway(states, actions) {
      var i, p: Path :|
        && 0 <= i < |actions| && p.Stored? && Moves(states[i], actions[i], p) && !Held(states[i], p)
        && RegisteredSince(states, actions, actions[i].pid, p, i);
      RunSound(states, actions, i);
      RegisteredSinceExactly(states, actions, actions[i].pid, p, i);
      HollowMoveIs(states[i], actions[i]);
    }
  }

  /**
   A run is safe throughout exactly if no put of it returns after having been overtaken and no opening process takes
   away a file that was registered since it looked.
   */
  lemma SafeExactlyByActions(states: seq<System>, actions: seq<Action>)
    requires IsRun(states, actions) && states[0] == Start
    ensures (forall i :: 0 <= i < |states| ==> Safe(states[i]))
       <==> NoneOvertaken(states, actions) && NoneTakenAway(states, actions)
  {
    hide Next, Safe, NoneOvertaken, NoneTakenAway, HollowInsert, HollowMove;
    SafeExactly(states, actions);
    InsertsExactly(states, actions);
    MovesExactly(states, actions);
  }

  /**
   Durability from the return of `put`, in terms of actions only: unless it was overtaken, what was put and is pinned
   or referenced reads back exactly if nothing since cost the row its flag or the path its file.
   */
  lemma NotOvertakenIsDurable(states: seq<System>, actions: seq<Action>, m: nat, n: nat)
    requires IsRun(states, actions) && states[0] == Start && m < n <= |actions|
    requires Returns(states[m], actions[m], states[m + 1])
    requires !Overtaken(states, actions, actions[m].pid, states[m].procs[actions[m].pid].q, m)
    requires var q := states[m].procs[actions[m].pid].q;
             states[m + 1].rows.Protected(q.Id()) && !Held(states[n], q.Destination())
    ensures var q := states[m].procs[actions[m].pid].q;
            Read(states[n].rows, states[n].disk.root, q.Id(), {q.cls})
            == if Spared(states, actions, q.Id(), q.Destination(), m + 1, n) then Some(q.content) else None
  {
    hide Next, Sound, Overtaken, Here, Spared;
    StartIsSound();
    RunSound(states, actions, m);
    PutReturns(states[m], actions[m], states[m + 1]);
    OvertakenExactly(states, actions, actions[m].pid, states[m].procs[actions[m].pid].q, m);
    PutIsDurable(states, actions, m, n);
  }
}
