/** Mutual exclusion is enough: where no put runs beside a collection or an opening, every state is safe. */
module Exclusion {
  import opened Prelude
  import opened ArtifactRows
  import opened Storage
  import opened ArtifactProtocol
  import opened Durability
  import opened Fates
  import opened Overtaking

  /** A put is in progress beside a collection or an opening. */
  ghost predicate Overlapping(s: System) {
    exists i, j ::
      i in s.procs && j in s.procs && s.procs[i].Putting() && (s.procs[j].Collecting() || s.procs[j].Opening())
  }

  /** A put that is about to register, or to drop its temporary name, has its file in place. */
  ghost predicate PutsVetted(s: System) {
    forall i :: i in s.procs ==>
      && (s.procs[i].PutRegister? ==> s.procs[i].path in s.disk.root)
      && (s.procs[i].PutUnlink? ==> s.procs[i].q.Destination() in s.disk.root)
  }

  /** What an opening process is about to move has no live row. */
  ghost predicate OpensVetted(s: System) {
    forall i :: i in s.procs && s.procs[i].OpenMove? ==> !LiveAt(s, s.procs[i].path)
  }

  // ---------------------------------------------------------------- puts

  /** A put vets the path it goes on with. */
  lemma PutVets(s: System, pid: nat, accepted: nat)
    requires pid in s.procs && s.procs[pid].Putting() && PutsVetted(s)
    ensures var s' := PutStep(s, pid, accepted);
            && (s'.procs[pid].PutRegister? ==> s'.procs[pid].path in s'.disk.root)
            && (s'.procs[pid].PutUnlink? ==> s'.procs[pid].q.Destination() in s'.disk.root)
  {
    hide Register;
  }

  /** One process moved, and no final name went away. */
  lemma VettedKept(s: System, pid: nat, s': System)
    requires Sound(s) && PutsVetted(s) && pid in s'.procs && s'.procs == s.procs[pid := s'.procs[pid]]
    requires forall p: Path :: p.Stored? && p in s.disk.root ==> p in s'.disk.root
    requires s'.procs[pid].PutRegister? ==> s'.procs[pid].path in s'.disk.root
    requires s'.procs[pid].PutUnlink? ==> s'.procs[pid].q.Destination() in s'.disk.root
    ensures PutsVetted(s')
  {
    forall i | i in s'.procs && i != pid
      ensures s'.procs[i].PutRegister? ==> s'.procs[i].path in s'.disk.root
      ensures s'.procs[i].PutUnlink? ==> s'.procs[i].q.Destination() in s'.disk.root
    {
      assert ProcSound(s.disk, s'.procs[i]);
    }
  }

  lemma NoPuts(s: System, pid: nat, s': System)
    requires pid in s.procs && (s.procs[pid].Collecting() || s.procs[pid].Opening()) && !Overlapping(s)
    requires pid in s'.procs && s'.procs == s.procs[pid := s'.procs[pid]] && !s'.procs[pid].Putting()
    ensures PutsVetted(s')
  {
    forall i | i in s'.procs
      ensures !s'.procs[i].PutRegister? && !s'.procs[i].PutUnlink?
    {
      assert i != pid ==> !s.procs[i].Putting();
    }
  }

  lemma IdleVetsPuts(s: System, a: Action, s': System)
    requires Sound(s) && PutsVetted(s) && Next(s, a, s') && Idles(a)
    ensures PutsVetted(s')
  {
    IdleFrame(s, a, s');
    if !a.Refer? {
      assert !s'.procs[a.pid].PutRegister? && !s'.procs[a.pid].PutUnlink? by { IdleFirst(s, a, s'); }
      hide Next;
      VettedKept(s, a.pid, s');
    } else {
      hide Next;
      forall i | i in s'.procs
        ensures s'.procs[i].PutRegister? ==> s'.procs[i].path in s'.disk.root
        ensures s'.procs[i].PutUnlink? ==> s'.procs[i].q.Destination() in s'.disk.root
      {
        assert ProcSound(s.disk, s'.procs[i]);
      }
    }
  }

  lemma IdleFirst(s: System, a: Action, s': System)
    requires Next(s, a, s') && Idles(a) && !a.Refer?
    ensures a.pid in s'.procs && !s'.procs[a.pid].PutRegister? && !s'.procs[a.pid].PutUnlink?
  {
    hide RecordAt;
  }

  lemma StepVetsPuts(s: System, a: Action, s': System)
    requires Sound(s) && PutsVetted(s) && !Overlapping(s) && Next(s, a, s')
    ensures PutsVetted(s') && !HollowInsert(s, a)
  {
    hide PutStep, GcStep, OpenStep, SettleStep, VisitStep, Overlapping, Sound, Reconciled, PutsVetted;
    assert !HollowInsert(s, a) by { NotHollow(s, a); }
    if OpenerActs(s, a) {
      OpenProcs(s, a, s');
      NoPuts(s, a.pid, s');
    } else if a.Step? {
      if s.procs[a.pid].Putting() {
        PutStepFrame(s, a.pid, a.accepted);
        PutVets(s, a.pid, a.accepted);
        VettedKept(s, a.pid, s');
      } else {
        SoundOwn(s, a.pid);
        GcStepFrame(s, a.pid);
        GcStaysGc(s, a.pid);
        NoPuts(s, a.pid, s');
      }
    } else if a.Crash? {
      NobodyLeft(s');
    } else {
      IdleVetsPuts(s, a, s');
    }
  }

  lemma NotHollow(s: System, a: Action)
    requires PutsVetted(s)
    ensures !HollowInsert(s, a)
  {
    hide Held;
  }

  lemma NobodyLeft(s: System)
    requires s.procs == map[]
    ensures PutsVetted(s) && OpensVetted(s)
  {
  }

  // ---------------------------------------------------------------- openings

  /** No row came to life, and nobody else decided anything. */
  lemma OpensKept(s: System, pid: nat, s': System)
    requires OpensVetted(s) && pid in s'.procs && s'.procs == s.procs[pid := s'.procs[pid]]
    requires forall p: Path :: LiveAt(s', p) ==> LiveAt(s, p)
    requires s'.procs[pid].OpenMove? ==> !LiveAt(s', s'.procs[pid].path)
    ensures OpensVetted(s')
  {
    hide LiveAt;
  }

  lemma PutVetsOpens(s: System, pid: nat, accepted: nat)
    requires pid in s.procs && s.procs[pid].Putting() && !Overlapping(s)
    ensures OpensVetted(PutStep(s, pid, accepted))
  {
    PutStepFrame(s, pid, accepted);
    PutStaysPut(s, pid, accepted);
    hide PutStep;
    var s' := PutStep(s, pid, accepted);
    forall i | i in s'.procs
      ensures !s'.procs[i].OpenMove?
    {
      assert i != pid ==> s'.procs[i] == s.procs[i] && !s.procs[i].Opening();
    }
  }

  lemma StepVetsOpens(s: System, a: Action, s': System)
    requires Sound(s) && OpensVetted(s) && !Overlapping(s) && Next(s, a, s')
    ensures OpensVetted(s') && !HollowMove(s, a)
  {
    hide PutStep, GcStep, OpenStep, SettleStep, VisitStep, Overlapping, Sound, Reconciled, OpensVetted;
    assert !HollowMove(s, a) by { NotHollowMove(s, a); }
    if a.Crash? {
      NobodyLeft(s');
    } else if a.Step? && s.procs[a.pid].Putting() {
      PutVetsOpens(s, a.pid, a.accepted);
    } else if a.Refer? {
      ReferVetsOpens(s, a, s');
    } else {
      RowsOnlyDie(s, a, s');
      DecidedVetted(s, a, s');
      hide Next, LiveAt;
      OpensKept(s, a.pid, s');
    }
  }

  lemma NotHollowMove(s: System, a: Action)
    requires Sound(s) && OpensVetted(s)
    ensures !HollowMove(s, a)
  {
    HollowMoveIs(s, a);
    hide Sound, LiveAt, Held;
  }

  lemma ReferVetsOpens(s: System, a: Action, s': System)
    requires OpensVetted(s) && Next(s, a, s') && a.Refer?
    ensures OpensVetted(s')
  {
    IdleFrame(s, a, s');
  }

  /** Only a put brings a row to life. */
  lemma RowsOnlyDie(s: System, a: Action, s': System)
    requires Sound(s) && Next(s, a, s') && !(a.Step? && s.procs[a.pid].Putting())
    ensures forall p: Path :: LiveAt(s', p) ==> LiveAt(s, p)
  {
    forall p: Path | LiveAt(s', p)
      ensures LiveAt(s, p)
    {
      RowMoves(s, a, s', p);
    }
  }

  /** The process that moved has decided only what has no live row. */
  lemma DecidedVetted(s: System, a: Action, s': System)
    requires Sound(s) && OpensVetted(s) && Next(s, a, s')
    requires !a.Crash? && !a.Refer? && !(a.Step? && s.procs[a.pid].Putting())
    requires forall p: Path :: LiveAt(s', p) ==> LiveAt(s, p)
    ensures a.pid in s'.procs && s'.procs == s.procs[a.pid := s'.procs[a.pid]]
    ensures s'.procs[a.pid].OpenMove? ==> !LiveAt(s', s'.procs[a.pid].path)
  {
    hide PutStep, GcStep, OpenStep, SettleStep, VisitStep, Sound, LiveAt;
    if OpenerActs(s, a) {
      OpenProcs(s, a, s');
    } else if a.Step? {
      SoundOwn(s, a.pid);
      GcStepFrame(s, a.pid);
    } else {
      IdleFrame(s, a, s');
    }
    if s'.procs[a.pid].OpenMove? {
      var p := s'.procs[a.pid].path;
      if !Decided(s, a.pid, p) {
        LookFindsNoRow(s, a, s', a.pid, p);
      }
    }
  }

  // ---------------------------------------------------------------- whole runs

  lemma StartIsVetted()
    ensures PutsVetted(Start) && OpensVetted(Start)
  {
  }

  lemma {:induction false} StaysVetted(states: seq<System>, actions: seq<Action>, n: nat)
    requires IsRun(states, actions) && states[0] == Start && n <= |actions|
    requires forall i :: 0 <= i < n ==> !Overlapping(states[i])
    ensures PutsVetted(states[n]) && OpensVetted(states[n])
    ensures forall i :: 0 <= i < n ==> !HollowInsert(states[i], actions[i]) && !HollowMove(states[i], actions[i])
  {
    hide Sound, Next, HollowInsert, HollowMove, Overlapping, PutsVetted, OpensVetted;
    StartIsSound();
    if n > 0 {
      StaysVetted(states, actions, n - 1);
      RunSound(states, actions, n - 1);
      StepVetsPuts(states[n - 1], actions[n - 1], states[n]);
      StepVetsOpens(states[n - 1], actions[n - 1], states[n]);
    } else {
      StartIsVetted();
    }
  }

  /** If no put runs beside a collection or an opening, every live row has its file throughout. */
  lemma ExclusionIsEnough(states: seq<System>, actions: seq<Action>)
    requires IsRun(states, actions) && states[0] == Start && forall i :: 0 <= i < |actions| ==> !Overlapping(states[i])
    ensures forall i :: 0 <= i < |states| ==> Safe(states[i])
  {
    hide Next, HollowInsert, HollowMove, Overlapping, PutsVetted, OpensVetted, Safe;
    StaysVetted(states, actions, |actions|);
    SafeExactly(states, actions);
  }
}
