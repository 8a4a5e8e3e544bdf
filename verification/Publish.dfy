/**
 Publishing snapshots by staging and one rename. Any number of publishers run concurrently, each file-system
 operation is one step, a publisher may fail and a crash may stop everything between any two steps.

 A snapshot directory is named by the digest of its receipt, which is symbolic here: the receipt is the name.
 */
module Publish {
  import opened Prelude
  import opened FileOrder
  import opened PathPolicy
  import opened TarBounds
  import opened Scan
  import opened SnapshotTree
  import TreeDigest

  type Hash = Bytes -> Bytes

  /** What a collector hands to `publish`; `context` stands for the request fields a receipt repeats. */
  datatype Material = Material(files: seq<File>, context: Bytes, manifest: Option<Bytes>, attestation: Option<Bytes>)

  datatype Receipt = Receipt(context: Bytes, fileCount: nat, totalBytes: nat, treeDigest: Bytes,
                             manifest: Option<Bytes>, attestation: Option<Bytes>)

  function ReceiptOf(hash: Hash, m: Material): Receipt {
    Receipt(m.context, |m.files|, TotalSize(m.files), TreeDigest.Digest(hash, m.files), m.manifest, m.attestation)
  }

  datatype SnapshotDir = SnapshotDir(tree: Tree, receipt: Option<Receipt>, manifest: Option<Bytes>,
    attestation: Option<Bytes>)

  const EmptyDir := SnapshotDir(map[], None, None, None)

  /** Sorted, normalized and not empty, as publish receives it from the collectors after sorting. */
  ghost predicate MaterialOk(m: Material) { Normal(m.files) && m.files != [] }

  /** The directory holds the whole tree of `files` and everything the receipt announces. */
  ghost predicate Stores(hash: Hash, dir: SnapshotDir, r: Receipt, files: seq<File>) {
    && Normal(files) && files != []
    && WriteFiles(map[], files) == Some(dir.tree)
    && TreeDigest.Digest(hash, files) == r.treeDigest
    && dir.receipt == Some(r) && dir.manifest == r.manifest && dir.attestation == r.attestation
  }

  ghost predicate Complete(hash: Hash, dir: SnapshotDir, r: Receipt) {
    exists files :: Stores(hash, dir, r, files)
  }

  /** verify_existing on a directory that holds `files`. */
  method VerifyExisting(hash: Hash, dir: SnapshotDir, r: Receipt, ghost files: seq<File>) returns (ok: bool)
    requires Represents(dir.tree, files) && Normal(files)
    ensures ok <==> && dir.receipt == Some(r) && dir.manifest == r.manifest && dir.attestation == r.attestation
                    && FitsVerifier(files) && TreeDigest.Digest(hash, files) == r.treeDigest
  {
    hide Represents, Normal, FitsVerifier;
    if dir.receipt != Some(r) || dir.manifest != r.manifest || dir.attestation != r.attestation {
      return false;
    }
    var actual := Rescan(dir.tree, files);
    if actual.Err? {
      return false;
    }
    var digest := TreeDigest.TreeDigest(hash, actual.value);
    return digest == r.treeDigest;
  }

  /** The same, as a predicate the steps below can use. */
  ghost predicate Verifies(hash: Hash, dir: SnapshotDir, r: Receipt) {
    && dir.receipt == Some(r) && dir.manifest == r.manifest && dir.attestation == r.attestation
    && exists files ::
         Represents(dir.tree, files) && Normal(files) && FitsVerifier(files)
           && TreeDigest.Digest(hash, files) == r.treeDigest
  }

  /** A tree represents one normal list only. */
  lemma RepresentsUnique(t: Tree, a: seq<File>, b: seq<File>)
    requires Represents(t, a) && Represents(t, b) && Normal(a) && Normal(b)
    ensures a == b
  {
    forall f | f in a
      ensures f in b
    {
      SharedFile(t, a, b, f);
    }
    forall f | f in b
      ensures f in a
    {
      SharedFile(t, b, a, f);
    }
    SortedUnique(a, b);
  }

  lemma SharedFile(t: Tree, a: seq<File>, b: seq<File>, f: File)
    requires FilesIn(t, a) && FilesIn(t, b) && FilesFrom(t, b) && f in a
    ensures f in b
  {
    hide Split;
    var g :| g in b && Split(f.path) == Split(g.path);
    SplitInjective(f.path, g.path);
    assert f == g;
  }

  /** A complete directory verifies exactly when its list fits the verifier's limits. */
  lemma CompleteVerifies(hash: Hash, dir: SnapshotDir, r: Receipt, files: seq<File>)
    requires Stores(hash, dir, r, files)
    ensures Represents(dir.tree, files)
    ensures Verifies(hash, dir, r) <==> FitsVerifier(files)
  {
    WriteExactly(files);
    hide Represents, Normal, FitsVerifier, WriteFiles;
    if Verifies(hash, dir, r) {
      var other :| Represents(dir.tree, other) && Normal(other) && FitsVerifier(other)
        && TreeDigest.Digest(hash, other) == r.treeDigest;
      RepresentsUnique(dir.tree, files, other);
    }
  }

  // ---------------------------------------------------------------- the protocol

  datatype Publisher =
    | Check(m: Material)                            // does the final directory exist?
    | Verify(m: Material, staging: Option<nat>)     // it does: compare with what is there
    | WriteTree(m: Material, w: nat, written: nat)
    | WriteReceipt(m: Material, w: nat)
    | WriteManifest(m: Material, w: nat)
    | WriteAttestation(m: Material, w: nat)
    | Rename(m: Material, w: nat)
    | Published(m: Material)
    | Failed

  function Staging(p: Publisher): Option<nat> {
    match p
    case Verify(_, staging) => staging
    case WriteTree(_, w, _) => Some(w)
    case WriteReceipt(_, w) => Some(w)
    case WriteManifest(_, w) => Some(w)
    case WriteAttestation(_, w) => Some(w)
    case Rename(_, w) => Some(w)
    case _ => None
  }

  datatype Storage = Storage(snapshots: map<Receipt, SnapshotDir>, work: map<nat, SnapshotDir>, next: nat,
    pubs: map<nat, Publisher>)

  datatype Action = Start(pid: nat, m: Material) | Step(pid: nat) | Fault(pid: nat) | Crash

  function At(s: Storage, pid: nat, p: Publisher): Storage { s.(pubs := s.pubs[pid := p]) }

  /** Leaving drops the work directory, if there still is one. */
  function Leave(s: Storage, pid: nat, p: Publisher): Storage
    requires pid in s.pubs
  {
    var kept := if Staging(s.pubs[pid]).Some? then s.work - {Staging(s.pubs[pid]).value} else s.work;
    At(s.(work := kept), pid, p)
  }

  predicate Running(p: Publisher) { !p.Published? && !p.Failed? }

  ghost function Advance(hash: Hash, s: Storage, pid: nat): Storage
    requires pid in s.pubs && Running(s.pubs[pid])
  {
    var p := s.pubs[pid];
    var r := ReceiptOf(hash, p.m);
    if Staging(p).Some? && Staging(p).value !in s.work then At(s, pid, Failed)
    else
      match p
      case Check(m) =>
        if r in s.snapshots then At(s, pid, Verify(m, None))
        else At(s.(work := s.work[s.next := EmptyDir], next := s.next + 1), pid, WriteTree(m, s.next, 0))
      case Verify(m, _) =>
        Leave(s, pid, if r in s.snapshots && Verifies(hash, s.snapshots[r], r) then Published(m) else Failed)
      case WriteTree(m, w, n) =>
        if n >= |m.files| then At(s, pid, WriteReceipt(m, w))
        else
          (match WriteFile(s.work[w].tree, m.files[n])
           case None => Leave(s, pid, Failed)
           case Some(t) => At(s.(work := s.work[w := s.work[w].(tree := t)]), pid, WriteTree(m, w, n + 1)))
      case WriteReceipt(m, w) => At(s.(work := s.work[w := s.work[w].(receipt := Some(r))]), pid, WriteManifest(m, w))
      case WriteManifest(m, w) => At(s.(work := s.work[w := s.work[w].(manifest := m.manifest)]), pid,
        WriteAttestation(m, w))
      case WriteAttestation(m, w) => At(s.(work := s.work[w := s.work[w].(attestation := m.attestation)]), pid,
        Rename(m, w))
      case Rename(m, w) =>
        // renaming onto an existing, never empty, directory fails
        if r in s.snapshots then At(s, pid, Verify(m, Some(w)))
        else At(s.(snapshots := s.snapshots[r := s.work[w]], work := s.work - {w}), pid, Published(m))
  }

  ghost predicate Next(hash: Hash, s: Storage, a: Action, s': Storage) {
    match a
    case Start(pid, m) => (pid !in s.pubs || !Running(s.pubs[pid])) && MaterialOk(m) && s' == At(s, pid, Check(m))
    case Step(pid) => pid in s.pubs && Running(s.pubs[pid]) && s' == Advance(hash, s, pid)
    case Fault(pid) => pid in s.pubs && Running(s.pubs[pid]) && s' == Leave(s, pid, Failed)
    case Crash => s' == s.(pubs := map[])
  }

  // ---------------------------------------------------------------- what every step keeps

  /** The staging directory is exactly as far along as its publisher. */
  ghost predicate OnTrack(hash: Hash, s: Storage, p: Publisher) {
    var staged := Staging(p);
    && (Running(p) ==> MaterialOk(p.m))
    && (staged.Some? ==> staged.value in s.work && staged.value < s.next)
    && match p
       case WriteTree(m, w, n) => n <= |m.files| && Partial(s.work[w], m, n, None, None)
       case WriteReceipt(m, w) => Partial(s.work[w], m, |m.files|, None, None)
       case WriteManifest(m, w) => Partial(s.work[w], m, |m.files|, Some(ReceiptOf(hash, m)), None)
       case WriteAttestation(m, w) => Partial(s.work[w], m, |m.files|, Some(ReceiptOf(hash, m)), m.manifest)
       case Rename(m, w) => Stores(hash, s.work[w], ReceiptOf(hash, m), m.files)
       case Published(m) => ReceiptOf(hash, m) in s.snapshots
       case Verify(m, _) => ReceiptOf(hash, m) in s.snapshots
       case _ => true
  }

  ghost predicate Partial(dir: SnapshotDir, m: Material, n: nat, receipt: Option<Receipt>, manifest: Option<Bytes>)
    requires n <= |m.files|
  {
    WriteFiles(map[], m.files[..n]) == Some(dir.tree) && dir.receipt == receipt && dir.manifest == manifest
      && dir.attestation == None
  }

  ghost predicate Sound(hash: Hash, s: Storage) {
    && (forall r :: r in s.snapshots ==> Complete(hash, s.snapshots[r], r))
    && (forall i :: i in s.pubs ==> OnTrack(hash, s, s.pubs[i]))
    && (forall i, j :: i in s.pubs && j in s.pubs && i != j && Staging(s.pubs[i]).Some? ==>
         Staging(s.pubs[i]) != Staging(s.pubs[j]))
    && (forall w :: w in s.work ==> w < s.next)
  }

  /** A publisher is not disturbed by changes outside its own staging directory. */
  lemma Undisturbed(hash: Hash, s: Storage, s': Storage, p: Publisher)
    requires OnTrack(hash, s, p) && s.next <= s'.next && forall r :: r in s.snapshots ==> r in s'.snapshots
    requires Staging(p).Some? ==> Staging(p).value in s'.work && s'.work[Staging(p).value] == s.work[Staging(p).value]
    ensures OnTrack(hash, s', p)
  {
    hide Partial, Stores, ReceiptOf, MaterialOk;
  }

  /** The step of one publisher, given that its own new state is on track. */
  lemma StepKeeps(hash: Hash, s: Storage, s': Storage, pid: nat)
    requires Sound(hash, s) && pid in s'.pubs && s'.pubs == s.pubs[pid := s'.pubs[pid]]
             && OnTrack(hash, s', s'.pubs[pid])
    requires forall r :: r in s'.snapshots ==> Complete(hash, s'.snapshots[r], r)
    requires s.next <= s'.next && forall r :: r in s.snapshots ==> r in s'.snapshots
    requires forall w :: w in s.work && !(pid in s.pubs && Staging(s.pubs[pid]) == Some(w)) ==>
      w in s'.work && s'.work[w] == s.work[w]
    requires forall w :: w in s'.work ==> w < s'.next
    requires var st := Staging(s'.pubs[pid]);
             st.None? || (pid in s.pubs && st == Staging(s.pubs[pid])) || st.value >= s.next
    ensures Sound(hash, s')
  {
    hide Complete;
    forall i | i in s.pubs && i != pid
      ensures OnTrack(hash, s', s.pubs[i])
      ensures Staging(s.pubs[i]).Some? ==> Staging(s.pubs[i]).value < s.next
    {
      assert OnTrack(hash, s, s.pubs[i]);
      Undisturbed(hash, s, s', s.pubs[i]);
    }
    hide OnTrack;
  }

  lemma NothingWritten(m: Material)
    ensures WriteFiles(map[], m.files[..0]) == Some(map[])
  {
  }

  lemma OneMoreWritten(m: Material, n: nat)
    requires n < |m.files|
    ensures var before := WriteFiles(map[], m.files[..n]);
            before.Some? ==> WriteFiles(map[], m.files[..n + 1]) == WriteFile(before.value, m.files[n])
  {
    hide WriteFile;
    assert m.files[..n + 1][..n] == m.files[..n];
  }

  /** Every step leaves its own publisher on track. */
  lemma AdvanceOnTrack(hash: Hash, s: Storage, pid: nat)
    requires pid in s.pubs && Running(s.pubs[pid]) && OnTrack(hash, s, s.pubs[pid])
    ensures OnTrack(hash, Advance(hash, s, pid), Advance(hash, s, pid).pubs[pid])
  {
    hide MaterialOk, ReceiptOf, Verifies, WriteFile, WriteFiles, Stores;
    var p := s.pubs[pid];
    if p.Check? {
      NothingWritten(p.m);
    } else if p.WriteTree? && p.written < |p.m.files| {
      OneMoreWritten(p.m, p.written);
    } else if p.WriteAttestation? {
      AttestedHolds(hash, s.work[p.w].(attestation := p.m.attestation), p.m);
    }
  }

  lemma AttestedHolds(hash: Hash, dir: SnapshotDir, m: Material)
    requires MaterialOk(m) && WriteFiles(map[], m.files[..|m.files|]) == Some(dir.tree)
    requires dir.receipt == Some(ReceiptOf(hash, m)) && dir.manifest == m.manifest && dir.attestation == m.attestation
    ensures Stores(hash, dir, ReceiptOf(hash, m), m.files)
  {
    assert m.files[..|m.files|] == m.files;
  }

  /** Where a step can write: its own staging directory, a new one, or one new snapshot name. */
  ghost predicate Shape(hash: Hash, s: Storage, pid: nat, s': Storage)
    requires pid in s.pubs && Running(s.pubs[pid])
  {
    var p := s.pubs[pid];
    && pid in s'.pubs && s'.pubs == s.pubs[pid := s'.pubs[pid]]
    && s.next <= s'.next
    && (s'.snapshots == s.snapshots
        || (p.Rename? && p.w in s.work && ReceiptOf(hash, p.m) !in s.snapshots
          && s'.snapshots == s.snapshots[ReceiptOf(hash, p.m) := s.work[p.w]]))
    && (forall w :: w in s.work && Staging(p) != Some(w) ==> w in s'.work && s'.work[w] == s.work[w])
    && (forall w :: w in s'.work ==> w < s'.next)
    && var st := Staging(s'.pubs[pid]); st.None? || st == Staging(p) || st.value >= s.next
  }

  lemma AdvanceShape(hash: Hash, s: Storage, pid: nat)
    requires pid in s.pubs && Running(s.pubs[pid]) && forall w :: w in s.work ==> w < s.next
    ensures Shape(hash, s, pid, Advance(hash, s, pid))
  {
    hide ReceiptOf, Verifies, WriteFile;
  }

  lemma AdvanceSound(hash: Hash, s: Storage, pid: nat)
    requires Sound(hash, s) && pid in s.pubs && Running(s.pubs[pid])
    ensures Sound(hash, Advance(hash, s, pid))
  {
    hide Advance, ReceiptOf, Complete;
    var p, s' := s.pubs[pid], Advance(hash, s, pid);
    AdvanceShape(hash, s, pid);
    assert OnTrack(hash, s, p);
    AdvanceOnTrack(hash, s, pid);
    if p.Rename? {
      HoldsComplete(hash, s.work[p.w], ReceiptOf(hash, p.m), p.m.files);
    }
    hide OnTrack;
    StepKeeps(hash, s, s', pid);
  }

  lemma HoldsComplete(hash: Hash, dir: SnapshotDir, r: Receipt, files: seq<File>)
    requires Stores(hash, dir, r, files)
    ensures Complete(hash, dir, r)
  {
  }

  lemma OtherSound(hash: Hash, s: Storage, a: Action, s': Storage)
    requires Sound(hash, s) && Next(hash, s, a, s') && (a.Start? || a.Fault?)
    ensures Sound(hash, s')
  {
    hide Complete, MaterialOk;
    assert OnTrack(hash, s', s'.pubs[a.pid]);
    StepKeeps(hash, s, s', a.pid);
  }

  /** Atomic publication: every step, fault and crash keeps every directory under snapshots/ complete. */
  lemma NextSound(hash: Hash, s: Storage, a: Action, s': Storage)
    requires Sound(hash, s) && Next(hash, s, a, s')
    ensures Sound(hash, s')
  {
    if a.Step? {
      AdvanceSound(hash, s, a.pid);
    } else if !a.Crash? {
      OtherSound(hash, s, a, s');
    }
  }

  /** A published snapshot is never changed or removed, by anyone. */
  lemma PublishedStays(hash: Hash, s: Storage, a: Action, s': Storage, r: Receipt)
    requires Next(hash, s, a, s') && r in s.snapshots
    ensures r in s'.snapshots && s'.snapshots[r] == s.snapshots[r]
  {
  }

  const Empty := Storage(map[], map[], 0, map[])

  ghost predicate IsRun(hash: Hash, states: seq<Storage>, actions: seq<Action>) {
    |states| == |actions| + 1 && states[0] == Empty && forall i :: 0 <= i < |actions| ==>
      Next(hash, states[i], actions[i], states[i + 1])
  }

  lemma {:induction false} AlwaysComplete(hash: Hash, states: seq<Storage>, actions: seq<Action>, n: nat)
    requires IsRun(hash, states, actions) && n <= |actions|
    ensures Sound(hash, states[n])
  {
    hide Next, Complete, OnTrack;
    if n > 0 {
      AlwaysComplete(hash, states, actions, n - 1);
      NextSound(hash, states[n - 1], actions[n - 1], states[n]);
    }
  }

  /** Every work directory belongs to a publisher that is still running. */
  ghost predicate Owned(s: Storage) {
    forall w :: w in s.work ==> exists i :: i in s.pubs && Running(s.pubs[i]) && Staging(s.pubs[i]) == Some(w)
  }

  /** A step keeps the directory of its own publisher only while that runs, and makes at most its own. */
  lemma AdvanceOwns(hash: Hash, s: Storage, pid: nat, w: nat)
    requires pid in s.pubs && Running(s.pubs[pid]) && OnTrack(hash, s, s.pubs[pid])
    ensures var s' := Advance(hash, s, pid);
            w in s'.work ==>
              || (w in s.work && Staging(s.pubs[pid]) != Some(w))
              || (Running(s'.pubs[pid]) && Staging(s'.pubs[pid]) == Some(w))
  {
    hide Stores, Verifies, WriteFile, WriteFiles, ReceiptOf, MaterialOk;
  }

  lemma OthersStay(hash: Hash, s: Storage, pid: nat)
    requires pid in s.pubs && Running(s.pubs[pid])
    ensures var s' := Advance(hash, s, pid); pid in s'.pubs && s'.pubs == s.pubs[pid := s'.pubs[pid]]
  {
    hide Verifies, WriteFile, ReceiptOf;
  }

  lemma OwnedKept(hash: Hash, s: Storage, a: Action, s': Storage)
    requires Sound(hash, s) && Owned(s) && Next(hash, s, a, s') && !a.Crash?
    ensures Owned(s')
  {
    hide Complete, OnTrack, Advance, MaterialOk;
    if a.Step? {
      OthersStay(hash, s, a.pid);
    }
    forall w | w in s'.work
      ensures exists i :: i in s'.pubs && Running(s'.pubs[i]) && Staging(s'.pubs[i]) == Some(w)
    {
      if a.Step? {
        AdvanceOwns(hash, s, a.pid, w);
      }
      if a.pid in s'.pubs && Running(s'.pubs[a.pid]) && Staging(s'.pubs[a.pid]) == Some(w) {
      } else {
        var i :| i in s.pubs && Running(s.pubs[i]) && Staging(s.pubs[i]) == Some(w);
        assert i != a.pid && s'.pubs[i] == s.pubs[i];
      }
    }
  }

  /** Until the system crashes no work directory is left behind, whether its publisher succeeded or failed. */
  lemma {:induction false} NothingLeftBehind(hash: Hash, states: seq<Storage>, actions: seq<Action>, n: nat)
    requires IsRun(hash, states, actions) && n <= |actions| && forall i :: 0 <= i < n ==> !actions[i].Crash?
    ensures Owned(states[n])
  {
    hide Next, Sound, Owned;
    if n == 0 {
      assert Owned(Empty) by { OwnsNothing(); }
    } else {
      NothingLeftBehind(hash, states, actions, n - 1);
      AlwaysComplete(hash, states, actions, n - 1);
      OwnedKept(hash, states[n - 1], actions[n - 1], states[n]);
    }
  }

  lemma OwnsNothing()
    ensures Owned(Empty)
  {
  }

  /**
   Re-publishing, exactly: a publisher that finds its snapshot in place succeeds precisely when the list stored there
   fits the verifier's fixed limits; and that list is its own, unless the hash collided.
   */
  lemma RepublishExactly(hash: Hash, s: Storage, pid: nat, stored: seq<File>)
    requires Sound(hash, s) && pid in s.pubs && s.pubs[pid].Verify?
    requires var r := ReceiptOf(hash, s.pubs[pid].m); r in s.snapshots && Stores(hash, s.snapshots[r], r, stored)
    ensures Advance(hash, s, pid).pubs[pid] == (if FitsVerifier(stored) then Published(s.pubs[pid].m) else Failed)
    ensures TreeDigest.Digest(hash, s.pubs[pid].m.files) == TreeDigest.Digest(hash, stored)
  {
    var p := s.pubs[pid];
    var r := ReceiptOf(hash, p.m);
    assert OnTrack(hash, s, p);
    CompleteVerifies(hash, s.snapshots[r], r, stored);
  }

  /** The hash tells `files` from whatever list the directory stores. */
  ghost predicate NoCollision(hash: Hash, dir: SnapshotDir, r: Receipt, files: seq<File>) {
    forall stored :: Stores(hash, dir, r, stored) ==>
      && TreeDigest.HashWidth(hash, stored) && TreeDigest.HashWidth(hash, files)
      && TreeDigest.LengthsFit(stored) && TreeDigest.LengthsFit(files)
      && !TreeDigest.Collision(hash, files, stored)
  }

  /** Two materials with the same receipt, and so the same name, are the same, unless the hash collides on them. */
  lemma ReceiptDetermines(hash: Hash, m: Material, n: Material)
    requires ReceiptOf(hash, m) == ReceiptOf(hash, n)
    requires TreeDigest.HashWidth(hash, m.files) && TreeDigest.HashWidth(hash, n.files)
    requires TreeDigest.LengthsFit(m.files) && TreeDigest.LengthsFit(n.files)
    ensures m == n || TreeDigest.Collision(hash, m.files, n.files)
  {
    TreeDigest.DigestDetermines(hash, m.files, n.files);
  }

  /** With a collision-free hash and material inside the limits, racing publishers all return the same snapshot. */
  lemma RepublishSucceeds(hash: Hash, s: Storage, pid: nat)
    requires Sound(hash, s) && pid in s.pubs && s.pubs[pid].Verify? && FitsVerifier(s.pubs[pid].m.files)
    requires var r := ReceiptOf(hash, s.pubs[pid].m);
             r in s.snapshots ==> NoCollision(hash, s.snapshots[r], r, s.pubs[pid].m.files)
    ensures Advance(hash, s, pid).pubs[pid] == Published(s.pubs[pid].m)
  {
    hide FitsVerifier, Stores, TreeDigest.Collision, TreeDigest.LengthsFit, TreeDigest.HashWidth, Advance;
    var m := s.pubs[pid].m;
    var r := ReceiptOf(hash, m);
    assert OnTrack(hash, s, s.pubs[pid]) && r in s.snapshots;
    var stored :| Stores(hash, s.snapshots[r], r, stored);
    RepublishExactly(hash, s, pid, stored);
    TreeDigest.DigestDetermines(hash, m.files, stored);
  }

  // ---------------------------------------------------------------- one publisher, call by call

  class SnapshotStore {
    const hash: Hash
    var snapshots: map<Receipt, SnapshotDir>

    constructor (hash: Hash)
      ensures this.hash == hash && snapshots == map[] && Valid()
    {
      this.hash := hash;
      snapshots := map[];
    }

    ghost predicate Valid()
      reads this
    {
      forall r :: r in snapshots ==> Complete(hash, snapshots[r], r)
    }

    /**
     `stored` is the list already published under the same receipt, when there is one. A first publication succeeds
     exactly for prefix-free lists, a repeated one exactly when the stored list fits the verifier's limits.
     */
    method Publish(m: Material) returns (r: Result<Receipt, AcquisitionError>, ghost stored: seq<File>)
      requires Valid() && Normal(SortFiles(m.files))
      modifies this
      ensures Valid() && forall q :: q in old(snapshots) ==> q in snapshots && snapshots[q] == old(snapshots)[q]
      ensures var sorted := m.(files := SortFiles(m.files));
              var q := ReceiptOf(hash, sorted);
              && (m.files == [] ==> r == Err(EmptySelection) && snapshots == old(snapshots))
              && (r.Ok? ==> r.value == q && q in snapshots)
              && (m.files != [] && TotalSize(m.files) <= U64_MAX ==>
                    (r.Ok? <==> if q in old(snapshots) then FitsVerifier(stored) else PrefixFree(sorted.files)))
              && (q in old(snapshots) ==> Stores(hash, old(snapshots)[q], q, stored))
              && (r.Ok? && q !in old(snapshots) ==> Stores(hash, snapshots[q], q, sorted.files))
    {
      hide Normal, WriteFiles, FitsVerifier, PrefixFree, Represents;
      var sorted := m.(files := SortFiles(m.files));
      SortMembers(m.files);
      SortTotal(m.files);
      var receipt := ReceiptOf(hash, sorted);
      stored := [];
      if receipt in snapshots {
        stored :| Stores(hash, snapshots[receipt], receipt, stored);
      }
      if sorted.files == [] {
        return Err(EmptySelection), stored;
      }
      if TotalSize(sorted.files) > U64_MAX {
        return Err(TotalBytesExceeded), stored;
      }
      if receipt in snapshots {
        WriteExactly(stored);
        var verified := VerifyExisting(hash, snapshots[receipt], receipt, stored);
        if !verified {
          return Err(SnapshotIntegrityFailed), stored;
        }
        return Ok(receipt), stored;
      }
      var tree := WriteSnapshotFiles(sorted.files);
      if tree.None? {
        return Err(SnapshotPublishFailed), stored;
      }
      var staging := SnapshotDir(tree.value, None, None, None);
      staging := staging.(receipt := Some(receipt));
      staging := staging.(manifest := m.manifest);
      staging := staging.(attestation := m.attestation);
      assert Stores(hash, staging, receipt, sorted.files);
      HoldsComplete(hash, staging, receipt, sorted.files);
      hide Complete;
      snapshots := snapshots[receipt := staging];
      return Ok(receipt), stored;
    }
  }
}
