/**
 scan_local: a depth-first walk with a work stack that skips directories which cannot contain selected files.
 A directory tree is a finite map from component lists to nodes.
 */
module Scan {
  import opened Prelude
  import opened FileOrder
  import opened PathPolicy
  import opened TarBounds

  datatype Node = FileNode(bytes: Bytes, executable: bool) | DirNode | SymlinkNode | OtherNode

  type Key = seq<Bytes>
  type Tree = map<Key, Node>

  /** Every entry sits in a directory, under a name without a slash. */
  ghost predicate WellFormed(t: Tree) {
    forall k :: k in t ==>
      && k != [] && (|k| > 1 ==> k[..|k| - 1] in t && t[k[..|k| - 1]] == DirNode)
      && NameOk(k[|k| - 1])
  }

  predicate NameOk(n: Bytes) { n != [] && SLASH !in n }

  /** Not the repository's own metadata at the root. */
  predicate Visible(k: Key) { k != [] ==> Lower(k[0]) != Ascii(".git") }

  function FileAt(t: Tree, k: Key): File
    requires k in t && t[k].FileNode?
  {
    File(Join(k), t[k].bytes, t[k].executable)
  }

  /** A file the caller asked for. */
  predicate Wanted(t: Tree, roots: seq<Bytes>, k: Key) {
    k in t && t[k].FileNode? && Visible(k) && Selected(Join(k), roots)
  }

  /** A directory the walk enters. */
  predicate Entered(t: Tree, roots: seq<Bytes>, k: Key) {
    k == [] || (k in t && t[k] == DirNode && Visible(k) && MayContainSelected(Join(k), roots))
  }

  predicate ChildOf(k: Key, dir: Key) { k != [] && k[..|k| - 1] == dir }

  /** An entry the walk does not refuse: a regular file or a directory, under an accepted path. */
  predicate Tame(t: Tree, limits: Limits, k: Key)
    requires k in t
  {
    (t[k].FileNode? || t[k] == DirNode) && PathOk(Join(k), limits.maxPathBytes)
  }

  ghost predicate TameIn(t: Tree, limits: Limits, dir: Key) {
    forall k :: k in t && ChildOf(k, dir) && Visible(k) ==> Tame(t, limits, k)
  }

  // ---------------------------------------------------------------- joined paths

  lemma PrefixIsBelow(k: Key, n: nat)
    requires 0 < n < |k|
    ensures Below(Join(k), Join(k[..n]))
  {
    assert k == k[..n] + k[n..];
    JoinAppend(k[..n], k[n..]);
  }

  /** Every ancestor of a wanted file is a directory the walk enters: pruning loses nothing. */
  lemma {:induction false} AncestorsEntered(t: Tree, roots: seq<Bytes>, k: Key, n: nat)
    requires WellFormed(t) && Wanted(t, roots, k) && n < |k|
    ensures Entered(t, roots, k[..n])
    decreases |k| - n
  {
    hide Selected, MayContainSelected;
    if n > 0 {
      if n + 1 < |k| {
        AncestorsEntered(t, roots, k, n + 1);
        assert k[..n + 1][..n] == k[..n];
      }
      PrefixIsBelow(k, n);
      AncestorsMayContain(Join(k), Join(k[..n]), roots);
    }
  }

  /** The walk enters every directory above one it enters. */
  lemma {:induction false} EnteredUpward(t: Tree, roots: seq<Bytes>, k: Key, n: nat)
    requires WellFormed(t) && Entered(t, roots, k) && n <= |k|
    ensures Entered(t, roots, k[..n])
    decreases |k| - n
  {
    hide MayContainSelected;
    if n == |k| {
      assert k[..n] == k;
    } else if n > 0 {
      EnteredUpward(t, roots, k, n + 1);
      var below := k[..n + 1];
      assert below[..n] == k[..n];
      PrefixIsBelow(below, n);
      MayContainUpward(Join(below), Join(k[..n]), roots);
    }
  }

  // ---------------------------------------------------------------- the walk

  datatype Found = Found(files: seq<File>, seen: set<Bytes>, total: nat)

  /** `files` are exactly the files at `taken`, in some order. */
  ghost predicate HoldsFiles(t: Tree, limits: Limits, taken: set<Key>, files: seq<File>) {
    && (forall k :: k in taken ==>
         k in t && t[k].FileNode? && FileAt(t, k) in files && PathOk(Join(k), limits.maxPathBytes))
    && (forall f :: f in files ==> exists k :: k in taken && k in t && t[k].FileNode? && f == FileAt(t, k))
  }

  /** `seen` are the folded paths of `files`, all different. */
  ghost predicate HoldsSeen(files: seq<File>, seen: set<Bytes>) {
    && (forall f :: f in files ==> Lower(f.path) in seen)
    && (forall i, j :: 0 <= i < j < |files| ==> Lower(files[i].path) != Lower(files[j].path))
    && (forall b :: b in seen ==> exists i :: 0 <= i < |files| && Lower(files[i].path) == b)
  }

  ghost predicate Holds(t: Tree, limits: Limits, taken: set<Key>, found: Found) {
    && HoldsFiles(t, limits, taken, found.files) && HoldsSeen(found.files, found.seen)
    && found.total == TotalSize(found.files) <= U64_MAX
    && Within(limits, found.files) && KeysApart(taken)
  }

  /** No two keys fold to the same path. */
  ghost predicate KeysApart(keys: set<Key>) {
    forall j, k :: j in keys && k in keys && Lower(Join(j)) == Lower(Join(k)) ==> j == k
  }

  lemma OneMoreKey(t: Tree, limits: Limits, taken: set<Key>, files: seq<File>, seen: set<Bytes>, k: Key)
    requires HoldsFiles(t, limits, taken, files) && HoldsSeen(files, seen) && KeysApart(taken)
    requires Lower(Join(k)) !in seen
    ensures KeysApart(taken + {k})
  {
    hide PathOk, Lower, Join;
    forall j | j in taken
      ensures Lower(Join(j)) in seen
    {
      assert FileAt(t, j) in files;
    }
  }

  /** Count, per-file and total limits. */
  ghost predicate Within(limits: Limits, files: seq<File>) {
    && |files| <= limits.maxFiles && TotalSize(files) <= limits.maxTotalBytes
    && forall i :: 0 <= i < |files| ==> |files[i].bytes| <= limits.maxFileBytes
  }

  lemma OneMoreFile(t: Tree, limits: Limits, taken: set<Key>, files: seq<File>, k: Key)
    requires HoldsFiles(t, limits, taken, files) && k in t && t[k].FileNode? && PathOk(Join(k), limits.maxPathBytes)
    ensures HoldsFiles(t, limits, taken + {k}, files + [FileAt(t, k)])
  {
    hide PathOk, Join;
    var files' := files + [FileAt(t, k)];
    assert FileAt(t, k) == files'[|files|];
    forall f | f in files'
      ensures exists q :: q in taken + {k} && q in t && t[q].FileNode? && f == FileAt(t, q)
    {
      if f in files {
        var q :| q in taken && q in t && t[q].FileNode? && f == FileAt(t, q);
        assert q in taken + {k};
      } else {
        assert f == FileAt(t, k) && k in taken + {k};
      }
    }
  }

  lemma OneMoreSeen(files: seq<File>, seen: set<Bytes>, f: File)
    requires HoldsSeen(files, seen) && Lower(f.path) !in seen
    ensures HoldsSeen(files + [f], seen + {Lower(f.path)})
  {
    hide Lower;
    var files' := files + [f];
    forall b | b in seen + {Lower(f.path)}
      ensures exists i :: 0 <= i < |files'| && Lower(files'[i].path) == b
    {
      if b in seen {
        var i :| 0 <= i < |files| && Lower(files[i].path) == b;
        assert files'[i] == files[i];
      } else {
        assert Lower(files'[|files|].path) == b;
      }
    }
    forall i, j | 0 <= i < j < |files'|
      ensures Lower(files'[i].path) != Lower(files'[j].path)
    {
      assert files[i] in files;
    }
  }

  lemma HoldsOneMore(t: Tree, limits: Limits, taken: set<Key>, found: Found, k: Key)
    requires Holds(t, limits, taken, found) && k in t && t[k].FileNode? && PathOk(Join(k), limits.maxPathBytes)
    requires Lower(Join(k)) !in found.seen && AddQuota(|found.files|, found.total, |t[k].bytes|, limits).Ok?
    ensures Holds(t, limits, taken + {k},
                  Found(found.files + [FileAt(t, k)], found.seen + {Lower(Join(k))}, found.total + |t[k].bytes|))
  {
    hide PathOk, Lower, Join, HoldsFiles, HoldsSeen, KeysApart;
    OneMoreKey(t, limits, taken, found.files, found.seen, k);
    OneMoreFile(t, limits, taken, found.files, k);
    OneMoreSeen(found.files, found.seen, FileAt(t, k));
    assert (found.files + [FileAt(t, k)])[..|found.files|] == found.files;
  }

  /**
   What the walk accepts: the entries of every entered directory are tame, no two wanted files collide, and `all`,
   which lists the wanted files, fits the limits. Nothing is asked of what lies under a pruned directory.
   */
  ghost predicate Clean(t: Tree, roots: seq<Bytes>, limits: Limits, all: seq<File>) {
    && (forall dir :: Entered(t, roots, dir) ==> TameIn(t, limits, dir))
    && (forall k :: Wanted(t, roots, k) ==> FileAt(t, k) in all)
    && (forall j, k :: Wanted(t, roots, j) && Wanted(t, roots, k) && Lower(Join(j)) == Lower(Join(k)) ==> j == k)
    && Within(limits, all) && TotalSize(all) <= U64_MAX
  }

  ghost predicate Scannable(t: Tree, roots: seq<Bytes>, limits: Limits) {
    exists all :: Clean(t, roots, limits, all)
  }

  lemma {:induction false} SubsetTotal(files: seq<File>, all: seq<File>)
    requires DistinctPaths(files) && forall f :: f in files ==> f in all
    ensures |files| <= |all| && TotalSize(files) <= TotalSize(all)
  {
    if files != [] {
      var n := |files| - 1;
      var f := files[n];
      assert f in files;
      var i :| 0 <= i < |all| && all[i] == f;
      var rest := all[..i] + all[i + 1..];
      forall g | g in files[..n]
        ensures g in rest
      {
        var j :| 0 <= j < n && files[j] == g;
        assert files[j].path != files[n].path;
        assert g in files;
        var m :| 0 <= m < |all| && all[m] == g;
        assert m != i;
        assert g == if m < i then rest[m] else rest[m - 1];
      }
      SubsetTotal(files[..n], rest);
      RemoveTotal(all, i);
    }
  }

  lemma {:induction false} RemoveTotal(all: seq<File>, i: nat)
    requires i < |all|
    ensures TotalSize(all) == TotalSize(all[..i] + all[i + 1..]) + |all[i].bytes|
  {
    var n := |all| - 1;
    if i == n {
      assert all[..i] + all[i + 1..] == all[..n];
    } else {
      RemoveTotal(all[..n], i);
      var rest, fewer := all[..i] + all[i + 1..], all[..n][..i] + all[..n][i + 1..];
      assert all[..n][..i] == all[..i] && all[..n][i + 1..] == all[i + 1..n];
      assert all[i + 1..] == all[i + 1..n] + [all[n]];
      assert rest == fewer + [all[n]];
      assert rest[..|rest| - 1] == fewer;
    }
  }

  /** In a clean tree the next wanted file never collides and never breaks a limit. */
  lemma CleanAdmits(t: Tree, roots: seq<Bytes>, limits: Limits, all: seq<File>, taken: set<Key>, found: Found, k: Key)
    requires Clean(t, roots, limits, all) && Holds(t, limits, taken, found) && Wanted(t, roots, k) && k !in taken
    requires forall q :: q in taken ==> Wanted(t, roots, q)
    ensures Lower(Join(k)) !in found.seen && AddQuota(|found.files|, found.total, |t[k].bytes|, limits).Ok?
  {
    hide PathOk, Wanted, Lower, Entered, TameIn;
    forall i | 0 <= i < |found.files|
      ensures Lower(found.files[i].path) != Lower(Join(k))
    {
      assert found.files[i] in found.files;
      var q :| q in taken && q in t && t[q].FileNode? && found.files[i] == FileAt(t, q);
    }
    var files := found.files + [FileAtWanted(t, roots, k)];
    assert files[..|files| - 1] == found.files;
    forall f | f in files
      ensures f in all
    {
      if f in found.files {
        var q :| q in taken && q in t && t[q].FileNode? && f == FileAt(t, q);
      }
    }
    SubsetTotal(files, all);
    assert FileAtWanted(t, roots, k) in all;
  }

  ghost function FileAtWanted(t: Tree, roots: seq<Bytes>, k: Key): (f: File)
    requires Wanted(t, roots, k)
    ensures k in t && t[k].FileNode? && f == FileAt(t, k)
  {
    FileAt(t, k)
  }

  // ---------------------------------------------------------------- one directory

  /** `a` and `b` are entries of one directory, and `a` has the smaller name. */
  predicate NamedBefore(a: Key, b: Key) { a != [] && b != [] && Less(a[|a| - 1], b[|b| - 1]) }

  lemma NamedTotal(a: Key, b: Key, dir: Key)
    requires ChildOf(a, dir) && ChildOf(b, dir) && a != b
    ensures NamedBefore(a, b) || NamedBefore(b, a)
  {
    LessTotal(a[|a| - 1], b[|b| - 1]);
    assert a == dir + [a[|a| - 1]] && b == dir + [b[|b| - 1]];
  }

  lemma NamedTransitive(a: Key, b: Key, c: Key)
    requires NamedBefore(a, b) && NamedBefore(b, c)
    ensures NamedBefore(a, c)
  {
    LessTransitive(a[|a| - 1], b[|b| - 1], c[|c| - 1]);
  }

  lemma LastOfTwo(pending: set<Key>, dir: Key, k: Key, l: Key)
    requires (forall j :: j in pending ==> ChildOf(j, dir)) && k in pending && l in pending - {k}
    requires forall j :: j in pending - {k} && j != l ==> NamedBefore(j, l)
    ensures exists m :: m in pending && forall j :: j in pending && j != m ==> NamedBefore(j, m)
  {
    hide NamedBefore;
    NamedTotal(k, l, dir);
    if NamedBefore(l, k) {
      forall j | j in pending && j != k
        ensures NamedBefore(j, k)
      {
        if j != l {
          NamedTransitive(j, l, k);
        }
      }
    } else {
      assert forall j :: j in pending && j != l ==> NamedBefore(j, l);
    }
  }

  lemma {:induction false} HasLastName(pending: set<Key>, dir: Key)
    requires pending != {} && forall k :: k in pending ==> ChildOf(k, dir)
    ensures exists k :: k in pending && forall j :: j in pending && j != k ==> NamedBefore(j, k)
  {
    hide NamedBefore, ChildOf;
    var k :| k in pending;
    if pending == {k} {
      assert forall j :: j in pending && j != k ==> NamedBefore(j, k);
    } else {
      HasLastName(pending - {k}, dir);
      var l :| l in pending - {k} && forall j :: j in pending - {k} && j != l ==> NamedBefore(j, l);
      LastOfTwo(pending, dir, k, l);
    }
  }

  /** The entries of `dir`, each once, sorted by name and last first, as the walk takes them. */
  method ReadDir(t: Tree, dir: Key) returns (entries: seq<Key>)
    ensures forall k :: k in entries <==> k in t && ChildOf(k, dir)
    ensures forall i, j :: 0 <= i < j < |entries| ==> NamedBefore(entries[j], entries[i]) && entries[i] != entries[j]
  {
    hide NamedBefore;
    entries := [];
    var pending := set k | k in t && ChildOf(k, dir);
    ghost var all := pending;
    while pending != {}
      invariant pending <= all && forall k :: k in entries <==> k in all && k !in pending
      invariant forall i, k :: 0 <= i < |entries| && k in pending ==> NamedBefore(k, entries[i])
      invariant forall i, j :: 0 <= i < j < |entries| ==>
        NamedBefore(entries[j], entries[i]) && entries[i] != entries[j]
      decreases pending
    {
      HasLastName(pending, dir);
      var k :| k in pending && forall j :: j in pending && j != k ==> NamedBefore(j, k);
      pending := pending - {k};
      entries := entries + [k];
    }
  }

  lemma InsideEntered(t: Tree, roots: seq<Bytes>, k: Key)
    requires |k| > 1 ==> Entered(t, roots, k[..|k| - 1])
    ensures |k| > 1 ==> Visible(k)
  {
    assert |k| > 1 ==> k[..|k| - 1][0] == k[0];
  }

  /** What a scannable tree means for one entry. */
  lemma ScannableAdmits(t: Tree, roots: seq<Bytes>, limits: Limits, taken: set<Key>, found: Found, k: Key)
    requires Scannable(t, roots, limits) && Holds(t, limits, taken, found) && k in t && k != [] && k !in taken
    requires Entered(t, roots, k[..|k| - 1]) && forall q :: q in taken ==> Wanted(t, roots, q)
    ensures Visible(k) ==> Tame(t, limits, k)
    ensures Wanted(t, roots, k) ==>
      Lower(Join(k)) !in found.seen && AddQuota(|found.files|, found.total, |t[k].bytes|, limits).Ok?
  {
    hide Holds, Wanted, Tame, Entered, Lower, AddQuota;
    var all :| Clean(t, roots, limits, all);
    assert TameIn(t, limits, k[..|k| - 1]) && ChildOf(k, k[..|k| - 1]);
    if Wanted(t, roots, k) {
      CleanAdmits(t, roots, limits, all, taken, found, k);
    }
  }

  /** One entry: skip, refuse, push a directory or keep a file. */
  method ScanEntry(t: Tree, roots: seq<Bytes>, limits: Limits, k: Key, found: Found, ghost taken: set<Key>)
    returns (r: Result<Found, AcquisitionError>, push: bool)
    requires k in t && k != [] && k !in taken && Holds(t, limits, taken, found)
             && forall q :: q in taken ==> Wanted(t, roots, q)
    requires Entered(t, roots, k[..|k| - 1])
    ensures r.Ok? ==> push == Entered(t, roots, k)
    ensures r.Ok? ==> Holds(t, limits, if Wanted(t, roots, k) then taken + {k} else taken, r.value)
    ensures r.Ok? ==> (Visible(k) ==> Tame(t, limits, k))
    ensures Scannable(t, roots, limits) ==> r.Ok?
  {
    hide Scannable, Holds, PathOk, Selected, MayContainSelected, AddQuota, Join, Lower;
    InsideEntered(t, roots, k);
    if Scannable(t, roots, limits) {
      ScannableAdmits(t, roots, limits, taken, found, k);
    }
    push := false;
    if |k| == 1 && Lower(k[0]) == Ascii(".git") {
      return Ok(found), false;
    }
    if t[k] == SymlinkNode {
      return Err(UnsupportedFileType), false;
    }
    if t[k] == DirNode {
      var dirPath := NormalizePath(Join(k), limits.maxPathBytes);
      if dirPath.Err? {
        return Err(UnsafePath), false;
      }
      return Ok(found), MayContainSelected(dirPath.value, roots);
    }
    if t[k] == OtherNode {
      return Err(UnsupportedFileType), false;
    }
    var path := NormalizePath(Join(k), limits.maxPathBytes);
    if path.Err? {
      return Err(UnsafePath), false;
    }
    if !Selected(path.value, roots) {
      return Ok(found), false;
    }
    if Lower(path.value) in found.seen {
      return Err(PathCollision), false;
    }
    var quota := AddQuota(|found.files|, found.total, |t[k].bytes|, limits);
    if quota.Err? {
      return Err(quota.error), false;
    }
    HoldsOneMore(t, limits, taken, found, k);
    QuotaIsSum(|found.files|, found.total, |t[k].bytes|, limits);
    return Ok(Found(found.files + [FileAt(t, k)], found.seen + {Lower(path.value)}, quota.value)), false;
  }

  lemma QuotaIsSum(count: nat, total: nat, size: nat, limits: Limits)
    requires AddQuota(count, total, size, limits).Ok?
    ensures AddQuota(count, total, size, limits).value == total + size
  {
  }

  // ---------------------------------------------------------------- the stack

  ghost predicate Lists(keys: seq<Key>, all: set<Key>) {
    (forall k :: k in keys <==> k in all) && forall i, j :: 0 <= i < j < |keys| ==> keys[i] != keys[j]
  }

  lemma ListsOneMore(keys: seq<Key>, all: set<Key>, k: Key)
    requires Lists(keys, all) && k !in all
    ensures Lists(keys + [k], all + {k})
  {
    var keys' := keys + [k];
    forall i, j | 0 <= i < j < |keys'|
      ensures keys'[i] != keys'[j]
    {
      assert keys[i] in keys;
    }
  }

  lemma ListsLess(keys: seq<Key>, all: set<Key>)
    requires Lists(keys, all) && keys != []
    ensures var k := keys[|keys| - 1]; k in all && Lists(keys[..|keys| - 1], all - {k})
  {
    var n := |keys| - 1;
    assert keys == keys[..n] + [keys[n]];
    assert keys[n] in keys;
  }

  lemma ListsBoth(a: seq<Key>, all: set<Key>, b: seq<Key>, more: set<Key>)
    requires Lists(a, all) && Lists(b, more) && all !! more
    ensures Lists(a + b, all + more)
  {
    var c := a + b;
    forall i, j | 0 <= i < j < |c|
      ensures c[i] != c[j]
    {
      if i < |a| && j >= |a| {
        assert a[i] in a && b[j - |a|] in b;
      }
    }
  }

  /** The directories directly under `dir` that the walk enters. */
  function Subdirs(t: Tree, roots: seq<Bytes>, dir: Key): set<Key> {
    set k | k in t && ChildOf(k, dir) && Entered(t, roots, k)
  }

  function WantedIn(t: Tree, roots: seq<Bytes>, dir: Key): set<Key> {
    set k | k in t && ChildOf(k, dir) && Wanted(t, roots, k)
  }

  /** `done` is finished, `open` is still to do; nothing that must be entered is missing. */
  ghost predicate Frontier(t: Tree, roots: seq<Bytes>, done: set<Key>, open: set<Key>) {
    && done !! open && [] in done + open
    && (forall d :: d in done + open ==> Entered(t, roots, d) && (d == [] || d[..|d| - 1] in done))
    && (forall d, k :: d in done && k in Subdirs(t, roots, d) ==> k in done + open)
  }

  ghost predicate TakenFrom(t: Tree, roots: seq<Bytes>, done: set<Key>, taken: set<Key>) {
    forall k :: k in taken <==> k != [] && k[..|k| - 1] in done && Wanted(t, roots, k)
  }

  lemma FrontierStep(t: Tree, roots: seq<Bytes>, done: set<Key>, open: set<Key>, dir: Key)
    requires Frontier(t, roots, done, open) && dir in open
    ensures open - {dir} !! Subdirs(t, roots, dir)
    ensures Frontier(t, roots, done + {dir}, open - {dir} + Subdirs(t, roots, dir))
  {
    hide Entered;
    var subdirs := Subdirs(t, roots, dir);
    forall k | k in subdirs
      ensures k !in done + open && k != [] && k[..|k| - 1] == dir && Entered(t, roots, k)
    {
    }
  }

  lemma TakenStep(t: Tree, roots: seq<Bytes>, done: set<Key>, taken: set<Key>, dir: Key)
    requires TakenFrom(t, roots, done, taken) && dir !in done
    ensures taken !! WantedIn(t, roots, dir)
    ensures TakenFrom(t, roots, done + {dir}, taken + WantedIn(t, roots, dir))
  {
    forall k | k != [] && k[..|k| - 1] == dir && Wanted(t, roots, k)
      ensures k in WantedIn(t, roots, dir)
    {
    }
  }

  /** When nothing is open, every directory the walk must enter is done. */
  lemma {:induction false} FrontierComplete(t: Tree, roots: seq<Bytes>, done: set<Key>, dir: Key, n: nat)
    requires WellFormed(t) && Frontier(t, roots, done, {}) && Entered(t, roots, dir) && n <= |dir|
    ensures dir[..n] in done
  {
    hide Entered;
    if n > 0 {
      FrontierComplete(t, roots, done, dir, n - 1);
      EnteredUpward(t, roots, dir, n);
      assert dir[..n][..n - 1] == dir[..n - 1];
      EnteredSubdir(t, roots, dir[..n]);
    }
  }

  lemma EnteredSubdir(t: Tree, roots: seq<Bytes>, k: Key)
    requires k != [] && Entered(t, roots, k)
    ensures k in Subdirs(t, roots, k[..|k| - 1])
  {
  }

  /** So every wanted file was taken. */
  lemma WantedTaken(t: Tree, roots: seq<Bytes>, done: set<Key>, taken: set<Key>, k: Key)
    requires WellFormed(t) && Frontier(t, roots, done, {}) && TakenFrom(t, roots, done, taken) && Wanted(t, roots, k)
    ensures k in taken
  {
    WantedNonempty(t, roots, k);
    hide Wanted, Entered, Frontier;
    var dir := k[..|k| - 1];
    AncestorsEntered(t, roots, k, |k| - 1);
    FrontierComplete(t, roots, done, dir, |dir|);
    assert dir[..|dir|] == dir;
  }

  lemma WantedNonempty(t: Tree, roots: seq<Bytes>, k: Key)
    requires WellFormed(t) && Wanted(t, roots, k)
    ensures k != []
  {
  }

  // ---------------------------------------------------------------- the walk itself

  /** All entries of one directory. */
  method ScanDirectory(t: Tree, roots: seq<Bytes>, limits: Limits, dir: Key, found: Found, ghost taken: set<Key>)
    returns (r: Result<Found, AcquisitionError>, subdirs: seq<Key>)
    requires Holds(t, limits, taken, found) && taken !! WantedIn(t, roots, dir) && Entered(t, roots, dir)
    requires forall q :: q in taken ==> Wanted(t, roots, q)
    ensures r.Ok? ==>
      Holds(t, limits, taken + WantedIn(t, roots, dir), r.value) && Lists(subdirs, Subdirs(t, roots, dir))
    ensures r.Ok? ==> TameIn(t, limits, dir)
    ensures Scannable(t, roots, limits) ==> r.Ok?
  {
    hide Holds, Entered, Wanted, Scannable, Tame;
    var entries := ReadDir(t, dir);
    var result := found;
    subdirs := [];
    var i := 0;
    ghost var dirs: set<Key> := {};
    ghost var kept: set<Key> := {};
    assert taken + kept == taken;
    while i < |entries|
      invariant 0 <= i <= |entries|
      invariant Lists(subdirs, dirs) && Holds(t, limits, taken + kept, result)
      invariant forall k :: k in dirs <==> k in entries[..i] && Entered(t, roots, k)
      invariant forall k :: k in kept <==> k in entries[..i] && Wanted(t, roots, k)
      invariant forall k :: k in entries[..i] && Visible(k) ==> Tame(t, limits, k)
    {
      var k := entries[i];
      assert k in entries && k !in entries[..i];
      assert entries[..i + 1] == entries[..i] + [k];
      assert k !in taken + kept by {
        assert Wanted(t, roots, k) ==> k in WantedIn(t, roots, dir);
      }
      var next, push := ScanEntry(t, roots, limits, k, result, taken + kept);
      if next.Err? {
        return next, subdirs;
      }
      result := next.value;
      if push {
        ListsOneMore(subdirs, dirs, k);
        subdirs := subdirs + [k];
        dirs := dirs + {k};
      }
      if Wanted(t, roots, k) {
        assert taken + kept + {k} == taken + (kept + {k});
        kept := kept + {k};
      }
      i := i + 1;
    }
    assert entries[..i] == entries;
    assert dirs == Subdirs(t, roots, dir) && kept == WantedIn(t, roots, dir);
    return Ok(result), subdirs;
  }

  /**
   scan_local. It succeeds exactly on scannable trees, and then the result is the sorted list of exactly the wanted
   files of the whole tree, pruned directories included.
   */
  method ScanLocal(t: Tree, roots: seq<Bytes>, limits: Limits) returns (r: Result<seq<File>, AcquisitionError>)
    requires WellFormed(t)
    ensures r.Ok? ==> Sorted(r.value) && forall k :: Wanted(t, roots, k) ==> FileAt(t, k) in r.value
    ensures r.Ok? ==> forall f :: f in r.value ==> exists k :: Wanted(t, roots, k) && f == FileAt(t, k)
    ensures r.Ok? ==> Within(limits, r.value) && forall f :: f in r.value ==> PathOk(f.path, limits.maxPathBytes)
    ensures r.Ok? <==> Scannable(t, roots, limits)
  {
    var pending: seq<Key> := [[]];
    var found := Found([], {}, 0);
    ghost var done: set<Key> := {};
    ghost var open: set<Key> := {[]};
    ghost var taken: set<Key> := {};
    ghost var entered := set d | d in t.Keys + {[]} && Entered(t, roots, d);
    StartWalk(t, roots, limits);
    while pending != []
      invariant Lists(pending, open) && Frontier(t, roots, done, open) && TakenFrom(t, roots, done, taken)
      invariant Holds(t, limits, taken, found) && done <= entered
      invariant forall d :: d in done ==> TameIn(t, limits, d)
      decreases entered - done
    {
      hide Holds, Wanted, Scannable, Subdirs, WantedIn, TakenFrom, TameIn;
      var dir := pending[|pending| - 1];
      ListsLess(pending, open);
      pending := pending[..|pending| - 1];
      FrontierStep(t, roots, done, open, dir);
      TakenStep(t, roots, done, taken, dir);
      TakenWanted(t, roots, done, taken);
      assert Entered(t, roots, dir) && dir in entered && dir !in done;
      var next, subdirs := ScanDirectory(t, roots, limits, dir, found, taken);
      if next.Err? {
        return Err(next.error);
      }
      found := next.value;
      ListsBoth(pending, open - {dir}, subdirs, Subdirs(t, roots, dir));
      pending := pending + subdirs;
      taken := taken + WantedIn(t, roots, dir);
      open := open - {dir} + Subdirs(t, roots, dir);
      done := done + {dir};
    }
    assert open == {} by { NothingOpen(open); }
    FinishWalk(t, roots, limits, done, taken, found);
    FinishClean(t, roots, limits, done, taken, found);
    return Ok(SortFiles(found.files));
  }

  lemma NothingOpen(open: set<Key>)
    requires Lists([], open)
    ensures open == {}
  {
    assert forall k :: k in open ==> k in [];
  }

  lemma TakenWanted(t: Tree, roots: seq<Bytes>, done: set<Key>, taken: set<Key>)
    requires TakenFrom(t, roots, done, taken)
    ensures forall q :: q in taken ==> Wanted(t, roots, q)
  {
  }

  lemma SortWithin(limits: Limits, files: seq<File>)
    requires Within(limits, files)
    ensures Within(limits, SortFiles(files))
  {
    SortTotal(files);
    SortMembers(files);
    var sorted := SortFiles(files);
    forall i | 0 <= i < |sorted|
      ensures |sorted[i].bytes| <= limits.maxFileBytes
    {
      assert sorted[i] in sorted;
    }
  }

  lemma NothingHeld(t: Tree, limits: Limits)
    ensures Holds(t, limits, {}, Found([], {}, 0))
  {
  }

  lemma StartWalk(t: Tree, roots: seq<Bytes>, limits: Limits)
    ensures Lists([[]], {[]}) && Frontier(t, roots, {}, {[]}) && TakenFrom(t, roots, {}, {})
            && Holds(t, limits, {}, Found([], {}, 0))
  {
    hide Lower, PathOk, MayContainSelected, Selected;
    NothingHeld(t, limits);
    hide Holds;
    assert Lists([[]], {[]});
  }

  lemma FinishWalk(t: Tree, roots: seq<Bytes>, limits: Limits, done: set<Key>, taken: set<Key>, found: Found)
    requires WellFormed(t) && Frontier(t, roots, done, {}) && TakenFrom(t, roots, done, taken)
             && Holds(t, limits, taken, found)
    ensures var files := SortFiles(found.files);
            && Sorted(files) && Within(limits, files)
            && (forall k :: Wanted(t, roots, k) ==> FileAt(t, k) in files)
            && (forall f :: f in files ==> PathOk(f.path, limits.maxPathBytes) && exists k ::
                 Wanted(t, roots, k) && f == FileAt(t, k))
  {
    FoldedImpliesDistinct(found.files);
    SortOrders(found.files);
    SortMembers(found.files);
    SortWithin(limits, found.files);
    TakenWanted(t, roots, done, taken);
    forall k | Wanted(t, roots, k)
      ensures FileAt(t, k) in found.files
    {
      WantedTaken(t, roots, done, taken, k);
    }
    hide Frontier, TakenFrom, PathOk, Wanted;
    forall f | f in found.files
      ensures PathOk(f.path, limits.maxPathBytes) && exists k :: Wanted(t, roots, k) && FileAtWanted(t, roots, k) == f
    {
      var k :| k in taken && k in t && t[k].FileNode? && f == FileAt(t, k);
      assert Wanted(t, roots, k) && FileAtWanted(t, roots, k) == f;
    }
  }

  /** What a finished walk has seen of the tree. */
  lemma FinishClean(t: Tree, roots: seq<Bytes>, limits: Limits, done: set<Key>, taken: set<Key>, found: Found)
    requires WellFormed(t) && Frontier(t, roots, done, {}) && TakenFrom(t, roots, done, taken)
             && Holds(t, limits, taken, found)
    requires forall d :: d in done ==> TameIn(t, limits, d)
    ensures Scannable(t, roots, limits)
  {
    hide Frontier, TakenFrom, Wanted, Entered, TameIn, PathOk, Lower;
    forall dir | Entered(t, roots, dir)
      ensures TameIn(t, limits, dir)
    {
      FrontierComplete(t, roots, done, dir, |dir|);
      assert dir[..|dir|] == dir;
    }
    forall k | Wanted(t, roots, k)
      ensures k in taken
    {
      WantedTaken(t, roots, done, taken, k);
    }
    assert Clean(t, roots, limits, found.files);
  }
}
