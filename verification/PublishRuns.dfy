/**
 Publishers over whole runs.

 `NeverFails`: racing with any number of others, a publisher of prefix-free material within the verifier's limits that
 is not stopped from outside never fails. `PublishesAlone`: left alone it publishes. `TooManyCannotBeRepublished`: more
 than a million files are published once and never again.
 */
module PublishRuns {
  import opened Prelude
  import opened FileOrder
  import opened PathPolicy
  import opened TarBounds
  import opened Scan
  import opened SnapshotTree
  import opened Publish
  import TreeDigest

  /** Whatever is stored under the receipt of `m` is `m`, as far as the hash can tell. */
  ghost predicate Unconfused(hash: Hash, s: Storage, m: Material) {
    var r := ReceiptOf(hash, m);
    r in s.snapshots ==> forall files :: Stores(hash, s.snapshots[r], r, files) ==>
      && TreeDigest.HashWidth(hash, files) && TreeDigest.HashWidth(hash, m.files)
      && TreeDigest.LengthsFit(files) && TreeDigest.LengthsFit(m.files) && !TreeDigest.Collision(hash, m.files, files)
  }

  ghost predicate Publishable(m: Material) { PrefixFree(m.files) && FitsVerifier(m.files) }

  /** At work on `m`, or done with it. */
  ghost predicate WorksOn(s: Storage, pid: nat, m: Material) {
    pid in s.pubs && s.pubs[pid] != Failed && s.pubs[pid].m == m
  }

  lemma PrefixStaysFree(files: seq<File>, n: nat)
    requires PrefixFree(files) && n <= |files|
    ensures PrefixFree(files[..n])
  {
    hide Compatible;
  }

  /** The next file of a prefix-free list can always be written. */
  lemma NextFileFits(m: Material, n: nat, t: Tree)
    requires PrefixFree(m.files) && n < |m.files| && WriteFiles(map[], m.files[..n]) == Some(t)
    ensures WriteFile(t, m.files[n]).Some?
  {
    hide WriteFile, Represents;
    PrefixStaysFree(m.files, n + 1);
    WriteExactly(m.files[..n + 1]);
    OneMoreWritten(m, n);
  }

  lemma TreeAdvances(hash: Hash, s: Storage, pid: nat)
    requires pid in s.pubs && s.pubs[pid].WriteTree? && OnTrack(hash, s, s.pubs[pid]) && PrefixFree(s.pubs[pid].m.files)
    ensures WorksOn(Advance(hash, s, pid), pid, s.pubs[pid].m)
  {
    hide WriteFile, WriteFiles, PrefixFree, Represents, MaterialOk, ReceiptOf, Stores, Verifies;
    var p := s.pubs[pid];
    if p.written < |p.m.files| {
      NextFileFits(p.m, p.written, s.work[p.w].tree);
    }
  }

  lemma VerifyAdvances(hash: Hash, s: Storage, pid: nat)
    requires Sound(hash, s) && pid in s.pubs && s.pubs[pid].Verify?
    requires FitsVerifier(s.pubs[pid].m.files) && Unconfused(hash, s, s.pubs[pid].m)
    ensures WorksOn(Advance(hash, s, pid), pid, s.pubs[pid].m)
  {
    assert OnTrack(hash, s, s.pubs[pid]);
    hide Stores, FitsVerifier, TreeDigest.Collision, TreeDigest.LengthsFit, TreeDigest.HashWidth, Advance;
    RepublishSucceeds(hash, s, pid);
  }

  /** No step of its own makes the publisher fail. */
  lemma OwnStepWorks(hash: Hash, s: Storage, pid: nat)
    requires Sound(hash, s) && pid in s.pubs && Running(s.pubs[pid])
    requires Publishable(s.pubs[pid].m) && Unconfused(hash, s, s.pubs[pid].m)
    ensures WorksOn(Advance(hash, s, pid), pid, s.pubs[pid].m)
  {
    hide Sound, Partial, Stores, MaterialOk, ReceiptOf, WriteFile, WriteFiles, Verifies, PrefixFree, FitsVerifier,
      Unconfused;
    SoundOnTrack(hash, s, pid);
    if s.pubs[pid].WriteTree? {
      TreeAdvances(hash, s, pid);
    } else if s.pubs[pid].Verify? {
      VerifyAdvances(hash, s, pid);
    }
  }

  /** Nor does anyone else's. */
  lemma OtherStepWorks(hash: Hash, s: Storage, a: Action, s': Storage, pid: nat, m: Material)
    requires Sound(hash, s) && Next(hash, s, a, s') && WorksOn(s, pid, m) && !a.Crash? && a.pid != pid
    ensures WorksOn(s', pid, m)
  {
    if a.Step? {
      AdvanceShape(hash, s, a.pid);
      hide Advance;
    }
  }

  /** Nobody stops the publisher between `from` and `to`. */
  ghost predicate LeftRunning(actions: seq<Action>, pid: nat, from: nat, to: nat)
    requires to <= |actions|
  {
    forall i :: from <= i < to ==> !actions[i].Crash? && actions[i] != Fault(pid)
  }

  ghost predicate AlwaysUnconfused(hash: Hash, states: seq<Storage>, m: Material) {
    forall i :: 0 <= i < |states| ==> Unconfused(hash, states[i], m)
  }

  lemma {:induction false} NeverFails(hash: Hash, states: seq<Storage>, actions: seq<Action>, pid: nat, m: Material,
      from: nat, to: nat)
    requires IsRun(hash, states, actions) && from < to <= |actions| && actions[from] == Start(pid, m)
    requires Publishable(m) && AlwaysUnconfused(hash, states, m) && LeftRunning(actions, pid, from, to)
    requires forall i :: from < i < to ==> !(actions[i].Start? && actions[i].pid == pid)
    ensures WorksOn(states[to], pid, m)
  {
    hide Sound, Unconfused, Publishable, Advance;
    assert Next(hash, states[to - 1], actions[to - 1], states[to]);
    if to > from + 1 {
      var s, a := states[to - 1], actions[to - 1];
      NeverFails(hash, states, actions, pid, m, from, to - 1);
      AlwaysComplete(hash, states, actions, to - 1);
      if a.pid != pid {
        OtherStepWorks(hash, s, a, states[to], pid, m);
      } else {
        OwnStepWorks(hash, s, pid);
      }
    }
  }

  // ---------------------------------------------------------------- alone

  ghost predicate Reachable(hash: Hash, s: Storage) {
    exists states, actions :: IsRun(hash, states, actions) && states[|actions|] == s
  }

  lemma ExtendRun(hash: Hash, s: Storage, a: Action, s': Storage)
    requires Reachable(hash, s) && Next(hash, s, a, s')
    ensures Reachable(hash, s')
  {
    hide Next;
    var states, actions :| IsRun(hash, states, actions) && states[|actions|] == s;
    var states', actions' := states + [s'], actions + [a];
    assert states'[..|states|] == states && actions'[..|actions|] == actions;
    assert IsRun(hash, states', actions') && states'[|actions'|] == s';
  }

  lemma ReachableSound(hash: Hash, s: Storage)
    requires Reachable(hash, s)
    ensures Sound(hash, s)
  {
    hide Next, Sound;
    var states, actions :| IsRun(hash, states, actions) && states[|actions|] == s;
    AlwaysComplete(hash, states, actions, |actions|);
  }

  /** How many steps are left on the way to a first publication. */
  function Left(p: Publisher): nat {
    match p
    case Check(m) => |m.files| + 6
    case WriteTree(m, _, n) => (if n <= |m.files| then |m.files| - n else 0) + 5
    case WriteReceipt(_, _) => 4
    case WriteManifest(_, _) => 3
    case WriteAttestation(_, _) => 2
    case Rename(_, _) => 1
    case _ => 0
  }

  /** On the way to a first publication: not verifying, and the name not taken. */
  ghost predicate FirstTime(hash: Hash, s: Storage, pid: nat, m: Material) {
    WorksOn(s, pid, m) && Running(s.pubs[pid]) && !s.pubs[pid].Verify? && ReceiptOf(hash, m) !in s.snapshots
  }

  lemma FirstTimeStep(hash: Hash, s: Storage, pid: nat, m: Material)
    requires Sound(hash, s) && FirstTime(hash, s, pid, m) && PrefixFree(m.files)
    ensures var s' := Advance(hash, s, pid);
            if s.pubs[pid].Rename? then
              && s'.pubs == s.pubs[pid := Published(m)] && ReceiptOf(hash, m) in s'.snapshots
              && Stores(hash, s'.snapshots[ReceiptOf(hash, m)], ReceiptOf(hash, m), m.files)
            else FirstTime(hash, s', pid, m) && Left(s'.pubs[pid]) < Left(s.pubs[pid])
  {
    hide Sound, Partial, Stores, MaterialOk, ReceiptOf, WriteFile, WriteFiles, Verifies, PrefixFree;
    SoundOnTrack(hash, s, pid);
    if s.pubs[pid].WriteTree? {
      TreeAdvances(hash, s, pid);
    }
  }

  lemma SoundOnTrack(hash: Hash, s: Storage, pid: nat)
    requires Sound(hash, s) && pid in s.pubs
    ensures OnTrack(hash, s, s.pubs[pid])
  {
    hide OnTrack, Complete;
  }

  /** Left alone, a publisher of prefix-free material publishes, whatever its size. */
  lemma {:induction false} PublishesAlone(hash: Hash, s: Storage, pid: nat, m: Material) returns (done: Storage)
    requires Reachable(hash, s) && FirstTime(hash, s, pid, m) && PrefixFree(m.files)
    ensures Reachable(hash, done) && pid in done.pubs && done.pubs[pid] == Published(m)
            && ReceiptOf(hash, m) in done.snapshots
    ensures Stores(hash, done.snapshots[ReceiptOf(hash, m)], ReceiptOf(hash, m), m.files)
    ensures forall i :: i != pid ==> (i in done.pubs <==> i in s.pubs)
    decreases Left(s.pubs[pid])
  {
    hide Reachable, Sound, FirstTime, PrefixFree, Advance, ReceiptOf, Stores;
    ReachableSound(hash, s);
    FirstTimeStep(hash, s, pid, m);
    FirstTimeRuns(hash, s, pid, m);
    var s' := Advance(hash, s, pid);
    ExtendRun(hash, s, Step(pid), s');
    assert forall i :: i != pid ==> (i in s'.pubs <==> i in s.pubs) by { StepOthers(hash, s, pid); }
    if s.pubs[pid].Rename? {
      done := s';
    } else {
      done := PublishesAlone(hash, s', pid, m);
    }
  }

  lemma FirstTimeRuns(hash: Hash, s: Storage, pid: nat, m: Material)
    requires FirstTime(hash, s, pid, m)
    ensures pid in s.pubs && Running(s.pubs[pid])
  {
  }

  lemma StepOthers(hash: Hash, s: Storage, pid: nat)
    requires Sound(hash, s) && pid in s.pubs && Running(s.pubs[pid])
    ensures forall i :: i != pid ==> (i in Advance(hash, s, pid).pubs <==> i in s.pubs)
  {
    AdvanceShape(hash, s, pid);
    hide Advance;
  }

  // ---------------------------------------------------------------- beyond the verifier's limits

  /** `i` in `w` decimal digits. */
  function Name(i: nat, w: nat): (b: Bytes)
    ensures |b| == w && forall k :: 0 <= k < w ==> 48 <= b[k] <= 57
  {
    if w == 0 then [] else Name(i / 10, w - 1) + [48 + i % 10]
  }

  function Pow10(w: nat): nat { if w == 0 then 1 else 10 * Pow10(w - 1) }

  lemma SevenDigits()
    ensures Pow10(7) == 10_000_000
  {
    assert Pow10(2) == 100 && Pow10(4) == 10_000;
    assert Pow10(6) == 1_000_000;
  }

  lemma {:induction false} LessThen(a: Bytes, b: Bytes, x: byte, y: byte)
    requires |a| == |b| && Less(a, b)
    ensures Less(a + [x], b + [y])
  {
    assert (a + [x])[1..] == a[1..] + [x] && (b + [y])[1..] == b[1..] + [y];
    if a[0] == b[0] {
      LessThen(a[1..], b[1..], x, y);
    }
  }

  lemma {:induction false} LessLast(a: Bytes, x: byte, y: byte)
    requires x < y
    ensures Less(a + [x], a + [y])
  {
    if a != [] {
      assert (a + [x])[1..] == a[1..] + [x] && (a + [y])[1..] == a[1..] + [y];
      LessLast(a[1..], x, y);
    }
  }

  /** Names of one width are ordered as their numbers. */
  lemma {:induction false} NameOrder(i: nat, j: nat, w: nat)
    requires i < j < Pow10(w)
    ensures Less(Name(i, w), Name(j, w))
  {
    if i / 10 == j / 10 {
      LessLast(Name(i / 10, w - 1), 48 + i % 10, 48 + j % 10);
    } else {
      NameOrder(i / 10, j / 10, w - 1);
      LessThen(Name(i / 10, w - 1), Name(j / 10, w - 1), 48 + i % 10, 48 + j % 10);
    }
  }

  lemma {:induction false} StemPlain(b: Bytes)
    requires DOT !in b
    ensures Stem(b) == b
  {
    if b != [] {
      assert b[0] in b;
      StemPlain(b[1..]);
      assert b == [b[0]] + b[1..];
    }
  }

  /** Seven digits are an acceptable path. */
  lemma NameOk7(i: nat)
    ensures var p := Name(i, 7); PathOk(p, |p|) && Lower(p) == p && Split(p) == [p]
  {
    var p := Name(i, 7);
    hide Name;
    SplitPlain(p);
    StemPlain(p);
    assert |Ascii(".git")| == 4 && forall k :: 0 <= k < |WINDOWS_DEVICES| ==> |Ascii(WINDOWS_DEVICES[k])| <= 4;
    assert |Lower(p)| == 7 && Lower(p) == p;
    hide Split, Stem, Lower;
    assert ComponentOk(p);
  }

  function Numbered(i: nat): File { File(Name(i, 7), [], false) }

  /** `n` empty files with seven-digit names. */
  function Many(n: nat): Material {
    Material(seq(n, i requires 0 <= i < n => Numbered(i)), [], None, None)
  }

  lemma {:induction false} EmptyTotal(files: seq<File>)
    requires forall i :: 0 <= i < |files| ==> files[i].bytes == []
    ensures TotalSize(files) == 0
  {
    if files != [] {
      EmptyTotal(files[..|files| - 1]);
    }
  }

  lemma ManyNormal(n: nat)
    requires 0 < n <= Pow10(7)
    ensures MaterialOk(Many(n))
  {
    hide Name, Pow10, PathOk, Lower, Less;
    var files := Many(n).files;
    forall i, j | 0 <= i < j < |files|
      ensures Less(files[i].path, files[j].path) && Lower(files[i].path) != Lower(files[j].path)
    {
      NameOrder(i, j, 7);
      NameOk7(i);
      NameOk7(j);
      LessTotal(files[i].path, files[j].path);
    }
    forall f | f in files
      ensures PathOk(f.path, |f.path|)
    {
      var i :| 0 <= i < |files| && files[i] == f;
      NameOk7(i);
    }
  }

  lemma ManyPrefixFree(n: nat)
    requires 0 < n <= Pow10(7)
    ensures PrefixFree(Many(n).files)
  {
    hide Name, Pow10, Less;
    var files := Many(n).files;
    forall i, j | 0 <= i < j < |files|
      ensures Compatible(files[j].path, files[i].path)
    {
      NameOrder(i, j, 7);
      LessTotal(files[i].path, files[j].path);
    }
  }

  /** The verifier takes at most a million files. */
  lemma ManyFits(n: nat)
    ensures FitsVerifier(Many(n).files) <==> n <= 1_000_000
  {
    hide Name, TotalSize;
    EmptyTotal(Many(n).files);
  }

  /** A second publisher of the same material finds the snapshot in place, and fails if it exceeds the limits. */
  lemma SecondFails(hash: Hash, s: Storage, m: Material) returns (s': Storage)
    requires Reachable(hash, s) && 0 in s.pubs && s.pubs[0] == Published(m) && 1 !in s.pubs && MaterialOk(m)
    requires ReceiptOf(hash, m) in s.snapshots
             && Stores(hash, s.snapshots[ReceiptOf(hash, m)], ReceiptOf(hash, m), m.files)
    requires !FitsVerifier(m.files)
    ensures Reachable(hash, s') && 0 in s'.pubs && s'.pubs[0] == Published(m) && 1 in s'.pubs && s'.pubs[1] == Failed
  {
    hide Reachable, FitsVerifier, MaterialOk, ReceiptOf, Stores, Sound, Verifies;
    var s1 := At(s, 1, Check(m));
    ExtendRun(hash, s, Start(1, m), s1);
    var s2 := Advance(hash, s1, 1);
    assert s2 == At(s1, 1, Verify(m, None));
    ExtendRun(hash, s1, Step(1), s2);
    ReachableSound(hash, s2);
    RepublishExactly(hash, s2, 1, m.files);
    s' := Advance(hash, s2, 1);
    ExtendRun(hash, s2, Step(1), s');
  }

  /** Reachable from the empty store: the first publisher has published them all, the second one failed on them. */
  lemma TooManyCannotBeRepublished(hash: Hash, n: nat) returns (s: Storage)
    requires 1_000_000 < n <= 10_000_000
    ensures MaterialOk(Many(n)) && PrefixFree(Many(n).files) && Reachable(hash, s)
    ensures 0 in s.pubs && s.pubs[0] == Published(Many(n)) && 1 in s.pubs && s.pubs[1] == Failed
  {
    SevenDigits();
    ManyNormal(n);
    ManyPrefixFree(n);
    ManyFits(n);
    var m := Many(n);
    hide Many, Pow10;
    hide Reachable, MaterialOk, PrefixFree, FitsVerifier, ReceiptOf, Stores, Advance;
    assert Reachable(hash, Empty) by { EmptyReachable(hash); }
    var s1 := At(Empty, 0, Check(m));
    ExtendRun(hash, Empty, Start(0, m), s1);
    var s2 := PublishesAlone(hash, s1, 0, m);
    s := SecondFails(hash, s2, m);
  }

  lemma EmptyReachable(hash: Hash)
    ensures Reachable(hash, Empty)
  {
    assert IsRun(hash, [Empty], []);
  }
}
