/**
 The step machine and the sequential store agree: a put that runs alone ends where `PutAlone` says, however many bytes
 the operating system accepts from each write.
 */
module Refinement {
  import opened Prelude
  import opened ArtifactRows
  import opened Storage
  import opened ArtifactProtocol
  import opened ArtifactStores

  /** How many bytes the write at step `t` is willing to take. */
  type Schedule = nat -> nat

  /** `n` consecutive steps of one put, from step `t` on. */
  ghost function Solo(s: System, pid: nat, accepts: Schedule, t: nat, n: nat): System
    decreases n
  {
    if n == 0 || pid !in s.procs || !s.procs[pid].Putting() then s
    else Solo(PutStep(s, pid, accepts(t)), pid, accepts, t + 1, n - 1)
  }

  ghost predicate Agrees(s: System, pid: nat, o: PutOutcome, quarantine: map<QName, Node>) {
    && s.rows == o.rows && s.disk.root == o.disk.root && s.disk.quarantine == quarantine
    && pid in s.procs && (if o.reply.Ok? then s.procs[pid].PutReturned? else s.procs[pid] == Stopped)
  }

  lemma SoloStep(s: System, pid: nat, accepts: Schedule, t: nat)
    requires pid in s.procs && s.procs[pid].Putting()
    ensures Solo(s, pid, accepts, t, 1) == PutStep(s, pid, accepts(t))
  {
    hide PutStep;
    var s' := PutStep(s, pid, accepts(t));
    assert Solo(s', pid, accepts, t + 1, 0) == s';
  }

  lemma {:induction false} SoloComposes(s: System, pid: nat, accepts: Schedule, t: nat, m: nat, n: nat)
    ensures Solo(Solo(s, pid, accepts, t, m), pid, accepts, t + m, n) == Solo(s, pid, accepts, t, m + n)
    decreases m
  {
    hide PutStep;
    if m > 0 && pid in s.procs && s.procs[pid].Putting() {
      SoloComposes(PutStep(s, pid, accepts(t)), pid, accepts, t + 1, m - 1, n);
    }
  }

  /** One write takes at least one byte. */
  lemma WriteStep(s: System, pid: nat, q: PutRequest, stamp: nat, written: nat, root0: map<Path, Node>, accepted: nat)
    returns (more: nat)
    requires pid in s.procs && s.procs[pid] == PutWrite(q, stamp, written) && written < |q.content|
    requires s.disk.root == root0[q.Temporary(stamp) := Regular(q.content[..written], true)]
    ensures var s1 := PutStep(s, pid, accepted);
            && written < more <= |q.content| && pid in s1.procs && s1.procs[pid] == PutWrite(q, stamp, more)
            && s1.disk.root == root0[q.Temporary(stamp) := Regular(q.content[..more], true)]
            && s1.rows == s.rows && s1.disk.quarantine == s.disk.quarantine
  {
    var s1 := PutStep(s, pid, accepted);
    more := s1.procs[pid].written;
    assert s1.disk.root == root0[q.Temporary(stamp) := Regular(q.content[..more], true)];
  }

  /** The complete temporary file passes its check. */
  lemma CompleteStep(s: System, pid: nat, q: PutRequest, stamp: nat, root0: map<Path, Node>, accepted: nat)
    requires pid in s.procs && s.procs[pid] == PutWrite(q, stamp, |q.content|)
    requires s.disk.root == root0[q.Temporary(stamp) := Regular(q.content[..|q.content|], true)]
    ensures var s1 := PutStep(s, pid, accepted);
            && pid in s1.procs && s1.procs[pid] == PutLink(q, stamp) && s1.rows == s.rows && s1.disk == s.disk
            && s1.disk.root == root0[q.Temporary(stamp) := Regular(q.content, true)]
  {
    assert q.content[..|q.content|] == q.content;
  }

  /** The writing loop, whatever each write accepts, and the check of the complete temporary file. */
  lemma {:induction false} SoloWrites(s: System, pid: nat, q: PutRequest, stamp: nat, written: nat, root0: map<Path,
      Node>,
                                      accepts: Schedule, t: nat) returns (n: nat)
    requires pid in s.procs && s.procs[pid] == PutWrite(q, stamp, written) && written <= |q.content|
    requires s.disk.root == root0[q.Temporary(stamp) := Regular(q.content[..written], true)]
    ensures var s' := Solo(s, pid, accepts, t, n);
            && pid in s'.procs && s'.procs[pid] == PutLink(q, stamp) && s'.rows == s.rows
            && s'.disk.root == root0[q.Temporary(stamp) := Regular(q.content, true)]
            && s'.disk.quarantine == s.disk.quarantine
    decreases |q.content| - written
  {
    hide PutStep, Solo;
    SoloStep(s, pid, accepts, t);
    var s1 := PutStep(s, pid, accepts(t));
    if written == |q.content| {
      CompleteStep(s, pid, q, stamp, root0, accepts(t));
      n := 1;
    } else {
      var more := WriteStep(s, pid, q, stamp, written, root0, accepts(t));
      var m := SoloWrites(s1, pid, q, stamp, more, root0, accepts, t + 1);
      SoloComposes(s, pid, accepts, t, 1, m);
      n := 1 + m;
    }
  }

  /** From the point where the temporary file is complete: link, then drop the temporary name. */
  lemma SoloLinks(s: System, pid: nat, q: PutRequest, stamp: nat, root0: map<Path, Node>, accepts: Schedule, t: nat)
    requires pid in s.procs && s.procs[pid] == PutLink(q, stamp)
    requires q.Destination() !in root0 && q.Temporary(stamp) !in root0
    requires s.disk.root == root0[q.Temporary(stamp) := Regular(q.content, true)]
    ensures var s2 := Solo(s, pid, accepts, t, 2);
            && pid in s2.procs && s2.procs[pid] == PutRegister(q, q.Destination()) && s2.rows == s.rows
            && s2.disk.root == root0[q.Destination() := Regular(q.content, true)]
            && s2.disk.quarantine == s.disk.quarantine
  {
    var s1 := PutStep(s, pid, accepts(t));
    SoloStep(s, pid, accepts, t);
    SoloStep(s1, pid, accepts, t + 1);
    SoloComposes(s, pid, accepts, t, 1, 1);
    var s2 := PutStep(s1, pid, accepts(t + 1));
    assert s2.disk.root == root0[q.Destination() := Regular(q.content, true)];
  }

  lemma SoloRegisters(s: System, pid: nat, q: PutRequest, rows: Rows, d: Disk, accepts: Schedule, t: nat)
    requires pid in s.procs && s.procs[pid] == PutRegister(q, q.Destination()) && s.rows == rows
    requires s.disk.root == d.root[q.Destination() := Regular(q.content, true)] && s.disk.quarantine == d.quarantine
    requires Acceptable(q) && q.Id() !in rows.artifacts && q.Destination() !in d.root
    ensures Agrees(Solo(s, pid, accepts, t, 1), pid, PutAlone(rows, d, q), d.quarantine)
  {
    SoloStep(s, pid, accepts, t);
  }

  /** From the empty temporary file on. */
  lemma SoloFinishes(s: System, pid: nat, q: PutRequest, stamp: nat, rows: Rows, d: Disk, accepts: Schedule, t: nat)
    returns (n: nat)
    requires pid in s.procs && s.procs[pid] == PutWrite(q, stamp, 0) && s.rows == rows
             && s.disk.quarantine == d.quarantine
    requires s.disk.root == d.root[q.Temporary(stamp) := Regular(q.content[..0], true)]
    requires Acceptable(q) && q.Id() !in rows.artifacts && q.Destination() !in d.root && q.Temporary(stamp) !in d.root
    ensures Agrees(Solo(s, pid, accepts, t, n), pid, PutAlone(rows, d, q), d.quarantine)
  {
    hide PutStep, PutAlone, Agrees, Solo;
    var m := SoloWrites(s, pid, q, stamp, 0, d.root, accepts, t);
    var s2 := Solo(s, pid, accepts, t, m);
    SoloLinks(s2, pid, q, stamp, d.root, accepts, t + m);
    SoloComposes(s, pid, accepts, t, m, 2);
    SoloRegisters(Solo(s2, pid, accepts, t + m, 2), pid, q, rows, d, accepts, t + m + 2);
    SoloComposes(s, pid, accepts, t, m + 2, 1);
    n := m + 3;
  }

  /** A put with no row and no file: create, write, verify, link, unlink, register. */
  lemma SoloCreates(s: System, pid: nat, q: PutRequest, accepts: Schedule, t: nat) returns (n: nat)
    requires pid in s.procs && s.procs[pid] == PutProbe(q) && Acceptable(q)
    requires q.Id() !in s.rows.artifacts && q.Destination() !in s.disk.root && q.Temporary(s.disk.clock) !in s.disk.root
    ensures Agrees(Solo(s, pid, accepts, t, n), pid, PutAlone(s.rows, s.disk, q), s.disk.quarantine)
  {
    hide PutAlone, Agrees, Solo;
    SoloStep(s, pid, accepts, t);
    var s1, stamp := PutStep(s, pid, accepts(t)), s.disk.clock;
    assert s1.procs[pid] == PutWrite(q, stamp, 0) && q.content[..0] == [];
    assert s1.rows == s.rows && s1.disk.quarantine == s.disk.quarantine;
    hide PutStep;
    var m := SoloFinishes(s1, pid, q, stamp, s.rows, s.disk, accepts, t + 1);
    SoloComposes(s, pid, accepts, t, 1, m);
    n := 1 + m;
  }

  /** The first step: refuse, or go on with what the row says. */
  lemma SoloLookup(s: System, pid: nat, q: PutRequest, accepts: Schedule, t: nat) returns (s1: System)
    requires pid in s.procs && s.procs[pid] == PutLookup(q) && Acceptable(q)
    ensures s1 == Solo(s, pid, accepts, t, 1) && s1.rows == s.rows && s1.disk == s.disk && pid in s1.procs
    ensures s1.procs[pid] == Stopped ==> Agrees(s1, pid, PutAlone(s.rows, s.disk, q), s.disk.quarantine)
    ensures s1.procs[pid] != Stopped ==>
      if q.Id() !in s.rows.artifacts then s1.procs[pid] == PutProbe(q)
      else s1.procs[pid] == PutCheckStored(q, s.rows.artifacts[q.Id()].path) && RowMatches(s.rows, q)
  {
    SoloStep(s, pid, accepts, t);
    s1 := PutStep(s, pid, accepts(t));
  }

  predicate RowMatches(rows: Rows, q: PutRequest) {
    && q.Id() in rows.artifacts
    && var row := rows.artifacts[q.Id()];
       row.cls == q.cls && row.media == q.media && row.size == |q.content| && row.Live()
  }

  /** A put whose file is already there: verify and register. */
  lemma SoloExisting(s: System, pid: nat, q: PutRequest, accepts: Schedule, t: nat) returns (n: nat)
    requires pid in s.procs && Acceptable(q)
    requires || (s.procs[pid] == PutProbe(q) && q.Id() !in s.rows.artifacts && q.Destination() in s.disk.root)
             || (RowMatches(s.rows, q) && s.procs[pid] == PutCheckStored(q, s.rows.artifacts[q.Id()].path))
    ensures Agrees(Solo(s, pid, accepts, t, n), pid, PutAlone(s.rows, s.disk, q), s.disk.quarantine)
  {
    SoloStep(s, pid, accepts, t);
    var s1 := PutStep(s, pid, accepts(t));
    if s1.procs[pid] == Stopped {
      n := 1;
    } else {
      SoloStep(s1, pid, accepts, t + 1);
      var s2 := PutStep(s1, pid, accepts(t + 1));
      SoloComposes(s, pid, accepts, t, 1, 1);
      if s2.procs[pid].Idle() {
        n := 2;
      } else {
        SoloStep(s2, pid, accepts, t + 2);
        SoloComposes(s, pid, accepts, t, 2, 1);
        n := 3;
      }
    }
  }

  lemma FreshTemporary(s: System, q: PutRequest)
    requires Sound(s)
    ensures q.Temporary(s.disk.clock) !in s.disk.root
  {
    hide RowsSound, ProcsSound, StampsPast;
  }

  /** Every put that runs alone from a sound state, under every schedule of accepted writes. */
  lemma SoloPut(s: System, pid: nat, q: PutRequest, accepts: Schedule) returns (n: nat)
    requires pid in s.procs && s.procs[pid] == PutLookup(q) && Acceptable(q) && Sound(s)
    ensures Agrees(Solo(s, pid, accepts, 0, n), pid, PutAlone(s.rows, s.disk, q), s.disk.quarantine)
  {
    hide Sound, PutStep, PutAlone, Agrees, Solo, RowMatches;
    FreshTemporary(s, q);
    var s1 := SoloLookup(s, pid, q, accepts, 0);
    if s1.procs[pid] == Stopped {
      n := 1;
    } else {
      var m: nat;
      if s1.procs[pid].PutProbe? && q.Destination() !in s.disk.root {
        m := SoloCreates(s1, pid, q, accepts, 1);
      } else {
        m := SoloExisting(s1, pid, q, accepts, 1);
      }
      SoloComposes(s, pid, accepts, 0, 1, m);
      n := 1 + m;
    }
  }
}
