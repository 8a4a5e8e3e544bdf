/** Writing a file list as a directory tree, and scanning the tree back. */
module SnapshotTree {
  import opened Prelude
  import opened FileOrder
  import opened PathPolicy
  import opened TarBounds
  import opened Scan

  function Ancestors(k: Key): set<Key> { set n | 0 < n < |k| :: k[..n] }

  /** create_dir_all(parent), then create_new: fails on a file in the way or on anything already there. */
  function WriteFile(t: Tree, f: File): Option<Tree> {
    var k := Split(f.path);
    if (exists a :: a in Ancestors(k) && a in t && t[a] != DirNode) || k in t then None
    else Some(t + (map a | a in Ancestors(k) :: DirNode) + map[k := FileNode(f.bytes, f.executable)])
  }

  function WriteFiles(t: Tree, files: seq<File>): Option<Tree> {
    if files == [] then Some(t)
    else
      match WriteFiles(t, files[..|files| - 1])
      case None => None
      case Some(t') => WriteFile(t', files[|files| - 1])
  }

  ghost predicate FilesIn(t: Tree, files: seq<File>) {
    forall f :: f in files ==> Split(f.path) in t && t[Split(f.path)] == FileNode(f.bytes, f.executable)
  }

  ghost predicate DirsIn(t: Tree, files: seq<File>) {
    forall f, a :: f in files && a in Ancestors(Split(f.path)) ==> a in t && t[a] == DirNode
  }

  ghost predicate DirsFrom(t: Tree, files: seq<File>) {
    forall k :: k in t && t[k] == DirNode ==> exists f :: f in files && k in Ancestors(Split(f.path))
  }

  ghost predicate FilesFrom(t: Tree, files: seq<File>) {
    forall k :: k in t && t[k] != DirNode ==> exists f :: f in files && k == Split(f.path)
  }

  /** `t` holds exactly these files and the directories above them. */
  ghost predicate Represents(t: Tree, files: seq<File>) {
    FilesIn(t, files) && DirsIn(t, files) && DirsFrom(t, files) && FilesFrom(t, files)
  }

  lemma {:induction false} SplitNames(b: Bytes)
    ensures forall i :: 0 <= i < |Split(b)| ==> SLASH !in Split(b)[i]
  {
    if b != [] {
      SplitNames(b[1..]);
      var rest, parts := Split(b[1..]), Split(b);
      if b[0] == SLASH {
        assert forall i :: 0 < i < |parts| ==> parts[i] == rest[i - 1];
      } else {
        assert forall i :: 0 < i < |parts| ==> parts[i] == rest[i];
      }
    }
  }

  /** A joined key splits back into itself. */
  lemma {:induction false} SplitJoin(k: Key)
    requires k != [] && forall i :: 0 <= i < |k| ==> SLASH !in k[i]
    ensures Split(Join(k)) == k
  {
    if |k| == 1 {
      SplitPlain(k[0]);
    } else {
      SplitJoin(k[1..]);
      SplitConcat(k[0], Join(k[1..]));
      SplitPlain(k[0]);
      assert k == [k[0]] + k[1..];
    }
  }

  /** One path lies below another exactly when the other's components are a proper prefix of its own. */
  lemma BelowIsPrefix(p: Bytes, d: Bytes)
    ensures Below(p, d) <==> Split(d) in Ancestors(Split(p))
  {
    if Below(p, d) {
      var rest := p[|d| + 1..];
      assert p == d + [SLASH] + rest;
      SplitConcat(d, rest);
      assert Split(p)[..|Split(d)|] == Split(d);
    }
    if Split(d) in Ancestors(Split(p)) {
      var n :| 0 < n < |Split(p)| && Split(p)[..n] == Split(d);
      PrefixIsBelow(Split(p), n);
      JoinSplit(p);
      JoinSplit(d);
    }
  }

  lemma SplitInjective(p: Bytes, q: Bytes)
    requires Split(p) == Split(q)
    ensures p == q
  {
    JoinSplit(p);
    JoinSplit(q);
  }

  /** The two paths can be files of one tree. */
  predicate Compatible(p: Bytes, q: Bytes) { p != q && !Below(p, q) && !Below(q, p) }

  /** What stops a write is an earlier file with an incompatible path. */
  lemma BlockedByOne(t: Tree, done: seq<File>, f: File) returns (g: File)
    requires Represents(t, done) && WriteFile(t, f).None?
    ensures g in done && !Compatible(f.path, g.path)
  {
    hide Ancestors, Split, Below, FilesIn, DirsIn;
    var k := Split(f.path);
    if a :| a in Ancestors(k) && a in t && t[a] != DirNode {
      g :| g in done && a == Split(g.path);
      BelowIsPrefix(f.path, g.path);
    } else if t[k] == DirNode {
      g :| g in done && k in Ancestors(Split(g.path));
      BelowIsPrefix(g.path, f.path);
    } else {
      g :| g in done && k == Split(g.path);
      SplitInjective(f.path, g.path);
    }
  }

  lemma BlocksOther(t: Tree, done: seq<File>, f: File, g: File)
    requires FilesIn(t, done) && DirsIn(t, done) && g in done && !Compatible(f.path, g.path)
    ensures WriteFile(t, f).None?
  {
    hide Ancestors, Split, Below;
    BelowIsPrefix(f.path, g.path);
    BelowIsPrefix(g.path, f.path);
    if Below(f.path, g.path) {
      assert Split(g.path) in Ancestors(Split(f.path)) && t[Split(g.path)] != DirNode;
    }
  }

  lemma WriteOneExactly(t: Tree, done: seq<File>, f: File)
    requires Represents(t, done)
    ensures WriteFile(t, f).Some? <==> forall g :: g in done ==> Compatible(f.path, g.path)
  {
    hide WriteFile, FilesIn, DirsIn, DirsFrom, FilesFrom, Compatible;
    if WriteFile(t, f).None? {
      var g := BlockedByOne(t, done, f);
    } else {
      forall g | g in done
        ensures Compatible(f.path, g.path)
      {
        if !Compatible(f.path, g.path) { BlocksOther(t, done, f, g); }
      }
    }
  }

  lemma NotOwnAncestor(k: Key)
    ensures k !in Ancestors(k)
  {
  }

  lemma WriteKeepsIn(t: Tree, done: seq<File>, f: File)
    requires FilesIn(t, done) && DirsIn(t, done) && WriteFile(t, f).Some?
    ensures FilesIn(WriteFile(t, f).value, done + [f]) && DirsIn(WriteFile(t, f).value, done + [f])
  {
    hide Split, Ancestors;
    NotOwnAncestor(Split(f.path));
  }

  lemma WriteKeepsDirsFrom(t: Tree, done: seq<File>, f: File)
    requires DirsFrom(t, done) && WriteFile(t, f).Some?
    ensures DirsFrom(WriteFile(t, f).value, done + [f])
  {
    hide Split, Ancestors;
    var t' := WriteFile(t, f).value;
    forall q | q in t' && t'[q] == DirNode
      ensures exists g :: g in done + [f] && q in Ancestors(Split(g.path))
    {
      if q in Ancestors(Split(f.path)) {
        assert f in done + [f];
      } else {
        var g :| g in done && q in Ancestors(Split(g.path));
        assert g in done + [f];
      }
    }
  }

  lemma WriteKeepsFilesFrom(t: Tree, done: seq<File>, f: File)
    requires FilesFrom(t, done) && WriteFile(t, f).Some?
    ensures FilesFrom(WriteFile(t, f).value, done + [f])
  {
    hide Split, Ancestors;
    var t' := WriteFile(t, f).value;
    forall q | q in t' && t'[q] != DirNode
      ensures exists g :: g in done + [f] && q == Split(g.path)
    {
      if q == Split(f.path) {
        assert f in done + [f];
      } else {
        var g :| g in done && q == Split(g.path);
        assert g in done + [f];
      }
    }
  }

  lemma WriteOneRepresents(t: Tree, done: seq<File>, f: File)
    requires Represents(t, done) && WriteFile(t, f).Some?
    ensures Represents(WriteFile(t, f).value, done + [f])
  {
    hide WriteFile, FilesIn, DirsIn, DirsFrom, FilesFrom;
    WriteKeepsIn(t, done, f);
    WriteKeepsDirsFrom(t, done, f);
    WriteKeepsFilesFrom(t, done, f);
  }

  /** No file path is also a directory of another. */
  ghost predicate PrefixFree(files: seq<File>) {
    forall i, j :: 0 <= i < j < |files| ==> Compatible(files[j].path, files[i].path)
  }

  /** A list is prefix-free exactly if its front is, and its last file fits the others. */
  lemma PrefixFreeSnoc(done: seq<File>, f: File)
    ensures PrefixFree(done + [f]) <==> PrefixFree(done) && forall g :: g in done ==> Compatible(f.path, g.path)
  {
    hide Compatible;
    var files := done + [f];
    assert forall i :: 0 <= i < |done| ==> files[i] == done[i];
    if PrefixFree(files) {
      forall g | g in done
        ensures Compatible(f.path, g.path)
      {
        var i :| 0 <= i < |done| && done[i] == g;
        assert Compatible(files[|done|].path, files[i].path);
      }
    }
    if PrefixFree(done) && forall g :: g in done ==> Compatible(f.path, g.path) {
      forall i, j | 0 <= i < j < |files|
        ensures Compatible(files[j].path, files[i].path)
      {
        assert j < |done| ==> files[j] == done[j];
      }
    }
  }

  /** write_snapshot_files succeeds exactly on prefix-free lists, and then the tree is exactly the list. */
  lemma {:induction false} WriteExactly(files: seq<File>)
    ensures WriteFiles(map[], files).Some? <==> PrefixFree(files)
    ensures WriteFiles(map[], files).Some? ==> Represents(WriteFiles(map[], files).value, files)
  {
    if files != [] {
      hide WriteFile, Represents, PrefixFree, Compatible;
      var n := |files| - 1;
      var done, f := files[..n], files[n];
      WriteExactly(done);
      assert files == done + [f];
      PrefixFreeSnoc(done, f);
      if PrefixFree(done) {
        var t := WriteFiles(map[], done).value;
        WriteOneExactly(t, done, f);
        if WriteFile(t, f).Some? {
          WriteOneRepresents(t, done, f);
        }
      }
    }
  }

  /** write_snapshot_files into an empty staging tree. */
  method WriteSnapshotFiles(files: seq<File>) returns (r: Option<Tree>)
    ensures r == WriteFiles(map[], files)
    ensures r.Some? <==> PrefixFree(files)
  {
    hide WriteFile, PrefixFree, Represents;
    var t: Tree := map[];
    var i := 0;
    WriteExactly(files);
    while i < |files|
      invariant 0 <= i <= |files| && WriteFiles(map[], files[..i]) == Some(t)
    {
      assert files[..i + 1][..i] == files[..i];
      var written := WriteFile(t, files[i]);
      if written.None? {
        StaysBlocked(files, i + 1);
        return None;
      }
      t := written.value;
      i := i + 1;
    }
    assert files[..i] == files;
    return Some(t);
  }

  /** Once a write failed, the whole list fails. */
  lemma {:induction false} StaysBlocked(files: seq<File>, n: nat)
    requires n <= |files| && WriteFiles(map[], files[..n]).None?
    ensures WriteFiles(map[], files).None?
    decreases |files| - n
  {
    hide WriteFile;
    if n == |files| {
      assert files[..n] == files;
    } else {
      assert files[..n + 1][..n] == files[..n];
      StaysBlocked(files, n + 1);
    }
  }

  // ---------------------------------------------------------------- scanning it back

  /** The fixed limits of verify_existing. */
  const VerifierLimits := Limits(1_000_000, U64_MAX / 2, U64_MAX / 2, 4096)

  /** What collectors guarantee of a file list: sorted, accepted paths, distinct up to case. */
  ghost predicate Normal(files: seq<File>) {
    && Sorted(files)
    && (forall f :: f in files ==> PathOk(f.path, |f.path|))
    && (forall i, j :: 0 <= i < j < |files| ==> Lower(files[i].path) != Lower(files[j].path))
  }

  /** The list fits the verifier's fixed limits. */
  ghost predicate FitsVerifier(files: seq<File>) {
    Within(VerifierLimits, files) && forall f :: f in files ==> |f.path| <= VerifierLimits.maxPathBytes
  }

  /** Every key is a nonempty prefix of the components of some file path. */
  lemma KeyOrigin(t: Tree, files: seq<File>, k: Key) returns (f: File, n: nat)
    requires DirsFrom(t, files) && FilesFrom(t, files) && k in t
    ensures f in files && 0 < n <= |Split(f.path)| && k == Split(f.path)[..n]
  {
    hide Split;
    if t[k] == DirNode {
      f :| f in files && k in Ancestors(Split(f.path));
      n :| 0 < n < |Split(f.path)| && k == Split(f.path)[..n];
    } else {
      f :| f in files && k == Split(f.path);
      n := |k|;
    }
  }

  /** A prefix of the components of an accepted path is an accepted path. */
  lemma PrefixOk(p: Bytes, n: nat)
    requires PathOk(p, |p|) && 0 < n <= |Split(p)|
    ensures var k := Split(p)[..n];
            PathOk(Join(k), |p|) && Split(Join(k)) == k && Visible(k) && forall i :: 0 <= i < |k| ==> NameOk(k[i])
  {
    var whole := Split(p);
    var k := whole[..n];
    SplitNames(p);
    JoinSplit(p);
    forall i | 0 <= i < |k|
      ensures ComponentOk(k[i]) && SLASH !in k[i]
    {
      assert k[i] == whole[i];
    }
    SplitJoin(k);
    hide ComponentOk, Split;
    PrefixVisible(k);
    if n < |whole| {
      PrefixIsBelow(whole, n);
      assert Join(k) != [] by { JoinNonempty(k); }
      AncestorOk(p, Join(k), |p|);
    } else {
      assert k == whole;
    }
  }

  lemma PrefixVisible(k: Key)
    requires k != [] && forall i :: 0 <= i < |k| ==> ComponentOk(k[i])
    ensures Visible(k) && k[0] != [] && forall i :: 0 <= i < |k| ==> k[i] != []
  {
    assert ComponentOk(k[0]);
  }

  lemma JoinNonempty(k: Key)
    requires k != [] && k[0] != []
    ensures Join(k) != []
  {
  }

  lemma KeysOfPaths(t: Tree, files: seq<File>, k: Key) returns (f: File)
    requires Represents(t, files) && Normal(files) && k in t
    ensures k != [] && (forall i :: 0 <= i < |k| ==> NameOk(k[i])) && Visible(k) && Split(Join(k)) == k
    ensures f in files && PathOk(Join(k), |f.path|)
  {
    hide PathOk, Split, FilesIn, DirsIn, DirsFrom, FilesFrom, Visible;
    var n: nat;
    f, n := KeyOrigin(t, files, k);
    PrefixOk(f.path, n);
  }

  lemma RepresentsWellFormed(t: Tree, files: seq<File>)
    requires Represents(t, files) && Normal(files)
    ensures WellFormed(t)
  {
    hide Split, Normal, FilesIn, DirsFrom, FilesFrom;
    forall k | k in t
      ensures k != [] && NameOk(k[|k| - 1])
      ensures |k| > 1 ==> k[..|k| - 1] in t && t[k[..|k| - 1]] == DirNode
    {
      var _ := KeysOfPaths(t, files, k);
      if |k| > 1 {
        var f, n := KeyOrigin(t, files, k);
        assert k[..n - 1] == Split(f.path)[..n - 1];
        assert k[..n - 1] in Ancestors(Split(f.path));
      }
    }
  }

  /** The files of the tree are the files of the list. */
  lemma RepresentsFiles(t: Tree, files: seq<File>, k: Key)
    requires Represents(t, files) && Normal(files)
    ensures Wanted(t, [], k) <==> exists f :: f in files && k == Split(f.path)
    ensures Wanted(t, [], k) ==> FileAt(t, k) in files
  {
    if Wanted(t, [], k) {
      var f :| f in files && k == Split(f.path);
      JoinSplit(f.path);
      assert FileAt(t, k) == f;
    }
    if f :| f in files && k == Split(f.path) {
      var _ := KeysOfPaths(t, files, k);
    }
  }

  lemma RepresentsClean(t: Tree, files: seq<File>)
    requires Represents(t, files) && Normal(files) && FitsVerifier(files)
    ensures Clean(t, [], VerifierLimits, files)
  {
    forall k | k in t && Visible(k)
      ensures Tame(t, VerifierLimits, k)
    {
      var f := KeysOfPaths(t, files, k);
      assert |f.path| <= VerifierLimits.maxPathBytes;
    }
    forall k | Wanted(t, [], k)
      ensures FileAt(t, k) in files
    {
      RepresentsFiles(t, files, k);
    }
    forall j, k | Wanted(t, [], j) && Wanted(t, [], k) && Lower(Join(j)) == Lower(Join(k))
      ensures j == k
    {
      RepresentsFiles(t, files, j);
      RepresentsFiles(t, files, k);
      SameFolded(files, FileAt(t, j), FileAt(t, k));
      var _ := KeysOfPaths(t, files, j);
      var _ := KeysOfPaths(t, files, k);
    }
  }

  lemma SameFolded(files: seq<File>, f: File, g: File)
    requires Normal(files) && f in files && g in files && Lower(f.path) == Lower(g.path)
    ensures f == g
  {
    var i :| 0 <= i < |files| && files[i] == f;
    var j :| 0 <= j < |files| && files[j] == g;
    assert i == j;
  }

  /**
   Scanning a written tree gives back exactly the list, or fails exactly when the list exceeds the verifier's limits.
   */
  method Rescan(t: Tree, ghost files: seq<File>) returns (r: Result<seq<File>, AcquisitionError>)
    requires Represents(t, files) && Normal(files)
    ensures r.Ok? <==> FitsVerifier(files)
    ensures r.Ok? ==> r.value == files
  {
    RepresentsWellFormed(t, files);
    if FitsVerifier(files) {
      RepresentsClean(t, files);
    }
    r := ScanLocal(t, [], VerifierLimits);
    if r.Ok? {
      SameListing(t, files, r.value);
      OkFits(files);
    } else {
      r := Err(SnapshotIntegrityFailed);
    }
  }

  lemma SameListing(t: Tree, files: seq<File>, listed: seq<File>)
    requires Represents(t, files) && Normal(files) && Sorted(listed)
    requires forall k :: Wanted(t, [], k) ==> FileAt(t, k) in listed
    requires forall f :: f in listed ==> exists k :: Wanted(t, [], k) && f == FileAt(t, k)
    ensures listed == files
  {
    forall f | f in listed
      ensures f in files
    {
      var k :| Wanted(t, [], k) && f == FileAt(t, k);
      RepresentsFiles(t, files, k);
    }
    forall f | f in files
      ensures f in listed
    {
      RepresentsFiles(t, files, Split(f.path));
      JoinSplit(f.path);
      assert FileAt(t, Split(f.path)) == f;
    }
    SortedUnique(listed, files);
  }

  lemma OkFits(files: seq<File>)
    requires Within(VerifierLimits, files) && forall f :: f in files ==> PathOk(f.path, VerifierLimits.maxPathBytes)
    ensures FitsVerifier(files)
  {
  }
}
