/**
 What single steps of the protocol come to, and puts among themselves. `PutStopsExactly`: a step of a put fails exactly
 if a file or a row it relies on is not there as it must be. `PutsNeverFail`: any number of puts that agree on class and
 media type of what they store, with nothing else going on, never fail, however they interleave.
 */
module PutRuns {
  import opened Prelude
  import opened ArtifactRows
  import opened Storage
  import opened ArtifactProtocol
  import opened Durability

  // ---------------------------------------------------------------- single steps

  /** The row of the identifier says something else, or is not live. */
  ghost predicate RowDisagrees(rows: Rows, q: PutRequest) {
    && q.Id() in rows.artifacts
    && var row := rows.artifacts[q.Id()];
       row.cls != q.cls || row.media != q.media || row.size != |q.content| || !row.complete || row.quarantined
  }

  /** What makes the next step of a put the last one. */
  ghost predicate Stops(s: System, p: Proc) {
    match p
    case PutLookup(q) => RowDisagrees(s.rows, q)
    case PutCheckStored(_, path) => path !in s.disk.root
    case PutCheckDestination(q) => q.Destination() !in s.disk.root
    case PutWrite(q, stamp, written) => written == |q.content| && q.Temporary(stamp) !in s.disk.root
    case PutLink(q, stamp) => q.Temporary(stamp) !in s.disk.root
    case PutCheckLinked(q, _) => q.Destination() !in s.disk.root
    case PutUnlink(q, stamp) => q.Temporary(stamp) !in s.disk.root
    case PutRegister(q, _) => RowDisagrees(s.rows, q)
    case _ => false
  }

  lemma PutStopsExactly(s: System, pid: nat, accepted: nat)
    requires Sound(s) && pid in s.procs
    requires !s.procs[pid].Idle() && !s.procs[pid].Collecting() && !s.procs[pid].Opening()
    ensures s.procs[pid].Putting()
    ensures PutStep(s, pid, accepted).procs[pid].Stopped? <==> Stops(s, s.procs[pid])
  {
    hide StampsPast, Separate;
    assert ProcSound(s.disk, s.procs[pid]);
  }

  /** What was at `p` is in quarantine under the new name `q`. */
  ghost predicate Arrives(d: Disk, d': Disk, q: QName, p: Path)
    requires p in d.root
  {
    q !in d.quarantine && q in d'.quarantine && q.base == p && d'.quarantine[q] == d.root[p]
  }

  /** A put that fails in the middle leaves its temporary file in quarantine, with whatever it holds. */
  lemma FaultConserves(s: System, pid: nat, s': System)
    requires Sound(s) && Next(s, Fault(pid), s') && !s.procs[pid].Opening()
    ensures s'.rows == s.rows && s'.procs == s.procs[pid := Stopped]
    ensures var temporary := s.procs[pid].q.Temporary(s.procs[pid].stamp);
            && s'.disk.root == s.disk.root - {temporary}
            && (forall q :: q in s.disk.quarantine ==>
                 q in s'.disk.quarantine && s'.disk.quarantine[q] == s.disk.quarantine[q])
            && (temporary in s.disk.root ==> exists q :: Arrives(s.disk, s'.disk, q, temporary))
  {
    var temporary := s.procs[pid].q.Temporary(s.procs[pid].stamp);
    if temporary in s.disk.root {
      var q := QName("put", s.disk.clock, temporary);
      assert Arrives(s.disk, s'.disk, q, temporary);
    }
  }

  /**
   An opening process closes when it has come to every path it listed, and then exactly with the live rows not seen; it
   ends when it has come to every one of those.
   */
  lemma OpeningCloses(s: System, pid: nat)
    requires pid in s.procs && (s.procs[pid].OpenWalk? || s.procs[pid].OpenClose?)
    ensures var now := OpenStep(s, pid).procs[pid];
            match s.procs[pid]
            case OpenWalk(due, seen) =>
              if due != {} then now == s.procs[pid]
              else now.OpenClose? && forall id :: id in now.lost <==> s.rows.LiveRow(id) && id !in seen
            case OpenClose(lost) => if lost != {} then now == s.procs[pid] else now.Stopped?
            case _ => true
  {
  }

  // ---------------------------------------------------------------- puts among themselves

  /** What class and media type each content has for everybody who puts it. */
  type Agreed = ArtifactId -> (string, string)

  predicate Agrees(agreed: Agreed, q: PutRequest) { agreed(q.Id()) == (q.cls, q.media) }

  ghost predicate RowsFine(s: System, agreed: Agreed) {
    forall id :: id in s.rows.artifacts ==>
      s.rows.LiveRow(id) && agreed(id) == (s.rows.artifacts[id].cls, s.rows.artifacts[id].media)
  }

  ghost predicate FilesFine(s: System) {
    forall id :: id in s.rows.artifacts ==> s.rows.artifacts[id].path in s.disk.root
  }

  /** The put has not failed, and the files it relies on are there. */
  ghost predicate PutFine(root: map<Path, Node>, p: Proc, agreed: Agreed) {
    match p
    case PutLookup(q) => Agrees(agreed, q)
    case PutCheckStored(q, path) => Agrees(agreed, q) && path in root
    case PutProbe(q) => Agrees(agreed, q)
    case PutCheckDestination(q) => Agrees(agreed, q) && q.Destination() in root
    case PutWrite(q, stamp, _) => Agrees(agreed, q) && q.Temporary(stamp) in root
    case PutLink(q, stamp) => Agrees(agreed, q) && q.Temporary(stamp) in root
    case PutCheckLinked(q, stamp) => Agrees(agreed, q) && q.Temporary(stamp) in root && q.Destination() in root
    case PutUnlink(q, stamp) => Agrees(agreed, q) && q.Temporary(stamp) in root && q.Destination() in root
    case PutRegister(q, path) => Agrees(agreed, q) && path in root
    case PutReturned(_) => true
    case _ => false
  }

  ghost predicate ProcsFine(s: System, agreed: Agreed) {
    forall i :: i in s.procs ==> PutFine(s.disk.root, s.procs[i], agreed)
  }

  ghost predicate Fine(s: System, agreed: Agreed) { RowsFine(s, agreed) && FilesFine(s) && ProcsFine(s, agreed) }

  /** Nothing but agreeing puts and references: no collection, no opening, no fault, no crash. */
  ghost predicate OnlyPuts(a: Action, agreed: Agreed) {
    (a.StartPut? && Agrees(agreed, a.q)) || a.Step? || a.Refer?
  }

  /** The step of one put leaves everything there that the others rely on. */
  lemma StepLeaves(s: System, pid: nat, accepted: nat, p: Path)
    requires pid in s.procs && s.procs[pid].Putting() && p in s.disk.root
    requires p.Incoming? ==> OwnStamp(s.procs[pid]) != Some(p.stamp)
    ensures p in PutStep(s, pid, accepted).disk.root
  {
  }

  lemma OthersFine(s: System, pid: nat, accepted: nat, i: nat, agreed: Agreed)
    requires Sound(s) && pid in s.procs && s.procs[pid].Putting() && i in s.procs && i != pid
    requires PutFine(s.disk.root, s.procs[i], agreed)
    ensures PutFine(PutStep(s, pid, accepted).disk.root, s.procs[i], agreed)
  {
    hide PutStep;
    forall p | p in s.disk.root && (p.Incoming? ==> OwnStamp(s.procs[pid]) != Some(p.stamp))
      ensures p in PutStep(s, pid, accepted).disk.root
    {
      StepLeaves(s, pid, accepted, p);
    }
    assert ProcSound(s.disk, s.procs[i]);
  }

  lemma OwnFine(s: System, pid: nat, accepted: nat, agreed: Agreed)
    requires Sound(s) && Fine(s, agreed) && pid in s.procs && s.procs[pid].Putting()
    ensures PutFine(PutStep(s, pid, accepted).disk.root, PutStep(s, pid, accepted).procs[pid], agreed)
  {
    hide StampsPast, Separate, PutStep, RowsSound, RowsFine, RootSound;
    var p := s.procs[pid];
    assert ProcSound(s.disk, p) && PutFine(s.disk.root, p, agreed);
    RowFits(s, p.q, agreed);
    if p.PutRegister? {
      Registered(s, pid, accepted, agreed);
    } else if p.PutLookup? || p.PutCheckStored? || p.PutCheckDestination? || p.PutProbe? {
      Looked(s, pid, accepted, agreed);
    } else {
      Written(s, pid, accepted, agreed);
    }
  }

  lemma Registered(s: System, pid: nat, accepted: nat, agreed: Agreed)
    requires pid in s.procs && s.procs[pid].PutRegister? && ProcSound(s.disk, s.procs[pid])
    requires var q := s.procs[pid].q;
             Register(s.rows, q.Id(), q.cls, q.media, |q.content|, q.Destination(), q.pinned, q.retention).Ok?
    ensures PutStep(s, pid, accepted).procs[pid].PutReturned?
  {
    hide Register;
  }

  lemma Looked(s: System, pid: nat, accepted: nat, agreed: Agreed)
    requires pid in s.procs && RootSound(s.disk) && FilesFine(s)
    requires var p := s.procs[pid]; p.PutLookup? || p.PutCheckStored? || p.PutCheckDestination? || p.PutProbe?
    requires ProcSound(s.disk, s.procs[pid]) && PutFine(s.disk.root, s.procs[pid], agreed)
    requires var q := s.procs[pid].q;
             q.Id() in s.rows.artifacts ==>
               var row := s.rows.artifacts[q.Id()];
               row.cls == q.cls && row.media == q.media && row.size == |q.content| && row.Live()
    ensures PutFine(PutStep(s, pid, accepted).disk.root, PutStep(s, pid, accepted).procs[pid], agreed)
  {
    hide Register;
  }

  lemma Written(s: System, pid: nat, accepted: nat, agreed: Agreed)
    requires pid in s.procs && RootSound(s.disk)
    requires var p := s.procs[pid]; p.PutWrite? || p.PutLink? || p.PutCheckLinked? || p.PutUnlink?
    requires ProcSound(s.disk, s.procs[pid]) && PutFine(s.disk.root, s.procs[pid], agreed)
    ensures PutFine(PutStep(s, pid, accepted).disk.root, PutStep(s, pid, accepted).procs[pid], agreed)
  {
    hide Register;
  }

  lemma RowFits(s: System, q: PutRequest, agreed: Agreed)
    requires RowsSound(s.rows) && RowsFine(s, agreed) && Agrees(agreed, q)
    ensures Register(s.rows, q.Id(), q.cls, q.media, |q.content|, q.Destination(), q.pinned, q.retention).Ok?
    ensures q.Id() in s.rows.artifacts ==>
      var row := s.rows.artifacts[q.Id()];
      row.cls == q.cls && row.media == q.media && row.size == |q.content| && row.Live() && row.path == q.Destination()
  {
  }

  lemma RowsStayFine(s: System, pid: nat, accepted: nat, agreed: Agreed)
    requires Sound(s) && Fine(s, agreed) && pid in s.procs && s.procs[pid].Putting()
    ensures RowsFine(PutStep(s, pid, accepted), agreed) && FilesFine(PutStep(s, pid, accepted))
  {
    hide PutStep, RowsFine, FilesFine;
    assert PutFine(s.disk.root, s.procs[pid], agreed) && ProcSound(s.disk, s.procs[pid]);
    if s.procs[pid].PutRegister? {
      RegisterFine(s, pid, accepted, agreed);
    } else {
      SameRows(s, pid, accepted);
      StillFine(s, PutStep(s, pid, accepted), pid, accepted, agreed);
    }
  }

  lemma SameRows(s: System, pid: nat, accepted: nat)
    requires pid in s.procs && s.procs[pid].Putting() && !s.procs[pid].PutRegister?
    ensures PutStep(s, pid, accepted).rows == s.rows
  {
  }

  lemma StillFine(s: System, s': System, pid: nat, accepted: nat, agreed: Agreed)
    requires RowsSound(s.rows) && RowsFine(s, agreed) && FilesFine(s) && pid in s.procs && s.procs[pid].Putting()
    requires s' == PutStep(s, pid, accepted) && s'.rows == s.rows
    ensures RowsFine(s', agreed) && FilesFine(s')
  {
    hide PutStep;
    forall id | id in s.rows.artifacts
      ensures s.rows.artifacts[id].path in s'.disk.root
    {
      StepLeaves(s, pid, accepted, s.rows.artifacts[id].path);
    }
  }

  lemma RegisterFine(s: System, pid: nat, accepted: nat, agreed: Agreed)
    requires RowsSound(s.rows) && RowsFine(s, agreed) && FilesFine(s) && pid in s.procs && s.procs[pid].PutRegister?
    requires PutFine(s.disk.root, s.procs[pid], agreed) && ProcSound(s.disk, s.procs[pid])
    ensures RowsFine(PutStep(s, pid, accepted), agreed) && FilesFine(PutStep(s, pid, accepted))
  {
    hide Register, RowsSound;
    RowFits(s, s.procs[pid].q, agreed);
  }

  lemma StepFine(s: System, a: Action, s': System, agreed: Agreed)
    requires Sound(s) && Fine(s, agreed) && Next(s, a, s') && OnlyPuts(a, agreed)
    ensures Fine(s', agreed)
  {
    if a.Step? {
      assert PutFine(s.disk.root, s.procs[a.pid], agreed);
      PutsOnly(s, a, s', agreed);
      hide PutStep, Sound;
      RowsStayFine(s, a.pid, a.accepted, agreed);
      OwnFine(s, a.pid, a.accepted, agreed);
      forall i | i in s'.procs && i != a.pid
        ensures PutFine(s'.disk.root, s'.procs[i], agreed)
      {
        OthersFine(s, a.pid, a.accepted, i, agreed);
      }
    }
  }

  lemma PutsOnly(s: System, a: Action, s': System, agreed: Agreed)
    requires Next(s, a, s') && a.Step? && PutFine(s.disk.root, s.procs[a.pid], agreed)
    ensures s.procs[a.pid].Putting() && s' == PutStep(s, a.pid, a.accepted)
    ensures a.pid in s'.procs && s'.procs == s.procs[a.pid := s'.procs[a.pid]]
  {
  }

  lemma {:induction false} PutsStayFine(states: seq<System>, actions: seq<Action>, n: nat, agreed: Agreed)
    requires IsRun(states, actions) && states[0] == Start && n <= |actions|
    requires forall i :: 0 <= i < |actions| ==> OnlyPuts(actions[i], agreed)
    ensures Fine(states[n], agreed)
  {
    hide Sound, Next, Fine, OnlyPuts;
    if n == 0 {
      assert Fine(Start, agreed) by { NothingWrong(agreed); }
    } else {
      PutsStayFine(states, actions, n - 1, agreed);
      assert Sound(Start) by { StartIsSound(); }
      RunSound(states, actions, n - 1);
      StepFine(states[n - 1], actions[n - 1], states[n], agreed);
    }
  }

  lemma NothingWrong(agreed: Agreed)
    ensures Fine(Start, agreed)
  {
  }

  /** However agreeing puts interleave, none of them ever fails, and every row they leave has its file. */
  lemma PutsNeverFail(states: seq<System>, actions: seq<Action>, n: nat, agreed: Agreed)
    requires IsRun(states, actions) && states[0] == Start && n <= |actions|
    requires forall i :: 0 <= i < |actions| ==> OnlyPuts(actions[i], agreed)
    ensures forall i :: i in states[n].procs ==> !states[n].procs[i].Stopped?
    ensures forall id :: id in states[n].rows.artifacts ==>
      states[n].rows.LiveRow(id) && states[n].rows.artifacts[id].path in states[n].disk.root
  {
    PutsStayFine(states, actions, n, agreed);
  }
}
