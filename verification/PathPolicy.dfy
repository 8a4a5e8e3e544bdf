/** Which paths the acquisition accepts, and which of them the selected roots select. Paths are ASCII byte strings. */
module PathPolicy {
  import opened Prelude
  import opened FileOrder

  datatype AcquisitionError =
    | UnsafePath | InvalidSelectedRoot | PathCollision | UnsupportedArchive | UnsupportedFileType
    | ArchiveChecksumMismatch | ArchiveBytesExceeded | FileCountExceeded | FileBytesExceeded | TotalBytesExceeded
    | InvalidBundle | EmptySelection | SnapshotPublishFailed | SnapshotIntegrityFailed | InvalidSourcePath

  datatype Limits = Limits(maxFiles: nat, maxTotalBytes: nat, maxFileBytes: nat, maxPathBytes: nat)

  const SLASH: byte := 47
  const DOT: byte := 46
  const BACKSLASH: byte := 92

  /** ASCII text as bytes. */
  function Ascii(s: string): Bytes {
    seq(|s|, i requires 0 <= i < |s| => if s[i] < 128 as char then s[i] as int else 0)
  }

  predicate IsAscii(b: Bytes) { forall i :: 0 <= i < |b| ==> b[i] < 128 }

  predicate IsControl(b: byte) { b < 32 || b == 127 }

  function LowerByte(b: byte): byte { if 65 <= b <= 90 then b + 32 else b }

  /** to_ascii_lowercase, the collision key of a path. */
  function Lower(b: Bytes): Bytes { seq(|b|, i requires 0 <= i < |b| => LowerByte(b[i])) }

  /** value.split('/') */
  function Split(b: Bytes): (parts: seq<Bytes>)
    ensures |parts| >= 1
  {
    if b == [] then [[]]
    else
      var rest := Split(b[1..]);
      if b[0] == SLASH then [[]] + rest else [[b[0]] + rest[0]] + rest[1..]
  }

  /** components.join("/") */
  function Join(parts: seq<Bytes>): Bytes {
    if parts == [] then []
    else if |parts| == 1 then parts[0]
    else parts[0] + [SLASH] + Join(parts[1..])
  }

  /** The part of a component before its first dot. */
  function Stem(c: Bytes): Bytes {
    if c == [] || c[0] == DOT then [] else [c[0]] + Stem(c[1..])
  }

  const WINDOWS_DEVICES: seq<string> :=
    ["con", "prn", "aux", "nul", "com1", "com2", "com3", "com4", "com5", "com6", "com7", "com8", "com9",
     "lpt1", "lpt2", "lpt3", "lpt4", "lpt5", "lpt6", "lpt7", "lpt8", "lpt9"]

  predicate IsDevice(stem: Bytes) {
    exists i :: 0 <= i < |WINDOWS_DEVICES| && Lower(stem) == Ascii(WINDOWS_DEVICES[i])
  }

  predicate ComponentOk(c: Bytes) {
    && c != [] && c != [DOT] && c != [DOT, DOT]
    && |c| <= 255
    && (forall i :: 0 <= i < |c| ==> !IsControl(c[i]))
    && c[|c| - 1] != DOT && c[|c| - 1] != 32
    && 58 !in c
    && Lower(c) != Ascii(".git")
    && !IsDevice(Stem(c))
  }

  predicate RawOk(raw: Bytes, maxPathBytes: nat) {
    raw != [] && |raw| <= maxPathBytes && raw[0] != SLASH && BACKSLASH !in raw && IsAscii(raw)
  }

  /** A path that normalize_path accepts. */
  predicate PathOk(raw: Bytes, maxPathBytes: nat) {
    RawOk(raw, maxPathBytes) && forall i :: 0 <= i < |Split(raw)| ==> ComponentOk(Split(raw)[i])
  }

  lemma {:induction false} JoinSplit(b: Bytes)
    ensures Join(Split(b)) == b
    decreases b, 1
  {
    if b == [] {
      assert Split(b) == [[]];
    } else {
      JoinStep(b);
    }
  }

  lemma JoinStep(b: Bytes)
    requires b != []
    ensures Join(Split(b)) == b
    decreases b, 0
  {
    hide Split;
    JoinSplit(b[1..]);
    var rest := Split(b[1..]);
    assert b == [b[0]] + b[1..];
    SplitStep(b, rest);
    if b[0] == SLASH {
      assert ([[]] + rest)[1..] == rest;
    } else {
      JoinFirst(b[0], rest);
    }
  }

  lemma JoinFirst(b: byte, rest: seq<Bytes>)
    requires rest != []
    ensures Join([[b] + rest[0]] + rest[1..]) == [b] + Join(rest)
  {
    assert ([[b] + rest[0]] + rest[1..])[1..] == rest[1..];
  }

  /** normalize_path: accepted paths are returned unchanged, all others are refused. */
  method NormalizePath(raw: Bytes, maxPathBytes: nat) returns (r: Result<Bytes, AcquisitionError>)
    ensures r == if PathOk(raw, maxPathBytes) then Ok(raw) else Err(UnsafePath)
  {
    if !RawOk(raw, maxPathBytes) {
      return Err(UnsafePath);
    }
    var parts := Split(raw);
    var components: seq<Bytes> := [];
    var i := 0;
    while i < |parts|
      invariant 0 <= i <= |parts| && components == parts[..i]
      invariant forall j :: 0 <= j < i ==> ComponentOk(parts[j])
    {
      if !ComponentOk(parts[i]) {
        return Err(UnsafePath);
      }
      components := components + [parts[i]];
      i := i + 1;
    }
    assert components == parts;
    JoinSplit(raw);
    return Ok(Join(components));
  }

  /** `path` lies strictly below the directory `dir`. */
  predicate Below(path: Bytes, dir: Bytes) {
    |path| > |dir| && path[..|dir|] == dir && path[|dir|] == SLASH
  }

  predicate Selected(path: Bytes, roots: seq<Bytes>) {
    roots == [] || exists i :: 0 <= i < |roots| && (path == roots[i] || Below(path, roots[i]))
  }

  predicate MayContainSelected(path: Bytes, roots: seq<Bytes>) {
    roots == [] || exists i :: 0 <= i < |roots| && (path == roots[i] || Below(roots[i], path) || Below(path, roots[i]))
  }

  /** Pruning is sound: every directory above a selected path may contain selected files. */
  lemma AncestorsMayContain(path: Bytes, dir: Bytes, roots: seq<Bytes>)
    requires Selected(path, roots) && Below(path, dir)
    ensures MayContainSelected(dir, roots)
  {
    if roots != [] {
      var i :| 0 <= i < |roots| && (path == roots[i] || Below(path, roots[i]));
      var root := roots[i];
      if path != root {
        if |root| < |dir| {
          assert dir[..|root|] == path[..|dir|][..|root|] == path[..|root|];
          assert dir[|root|] == path[|root|];
          assert Below(dir, root);
        } else if |root| > |dir| {
          assert root[..|dir|] == path[..|root|][..|dir|] == path[..|dir|];
          assert root[|dir|] == path[|dir|];
          assert Below(root, dir);
        } else {
          assert dir == root;
        }
      }
    }
  }

  /** So a directory above one that may contain selected files may contain them too. */
  lemma MayContainUpward(path: Bytes, dir: Bytes, roots: seq<Bytes>)
    requires MayContainSelected(path, roots) && Below(path, dir)
    ensures MayContainSelected(dir, roots)
  {
    if Selected(path, roots) {
      AncestorsMayContain(path, dir, roots);
    } else {
      var i :| 0 <= i < |roots| && Below(roots[i], path);
      assert roots[i][..|dir|] == roots[i][..|path|][..|dir|] && roots[i][|dir|] == roots[i][..|path|][|dir|];
    }
  }

  lemma {:induction false} JoinAppend(a: seq<Bytes>, b: seq<Bytes>)
    requires a != [] && b != []
    ensures Join(a + b) == Join(a) + [SLASH] + Join(b)
  {
    if |a| == 1 {
      assert (a + b)[1..] == b;
    } else {
      assert (a + b)[1..] == a[1..] + b;
      JoinAppend(a[1..], b);
    }
  }

  lemma SplitStep(b: Bytes, rest: seq<Bytes>)
    requires b != [] && rest == Split(b[1..])
    ensures Split(b) == if b[0] == SLASH then [[]] + rest else [[b[0]] + rest[0]] + rest[1..]
  {
  }

  lemma {:induction false} SplitConcat(a: Bytes, b: Bytes)
    ensures Split(a + [SLASH] + b) == Split(a) + Split(b)
  {
    var whole := a + [SLASH] + b;
    if a == [] {
      assert whole[0] == SLASH && whole[1..] == b;
      SplitStep(whole, Split(b));
    } else {
      SplitConcat(a[1..], b);
      assert whole[0] == a[0] && whole[1..] == a[1..] + [SLASH] + b;
      var rest, tail := Split(a[1..]), Split(b);
      SplitStep(whole, rest + tail);
      SplitStep(a, rest);
      hide Split;
      if a[0] == SLASH { Regroup([], rest, tail); } else { Regroup([a[0]] + rest[0], rest, tail); }
    }
  }

  lemma {:induction false} SplitPlain(b: Bytes)
    requires SLASH !in b
    ensures Split(b) == [b]
  {
    if b != [] {
      assert b[0] in b && forall x :: x in b[1..] ==> x in b;
      SplitPlain(b[1..]);
      assert b == [b[0]] + b[1..];
    }
  }

  /** No accepted path ends in a slash. */
  lemma EndsInName(path: Bytes, maxPathBytes: nat)
    requires PathOk(path, maxPathBytes)
    ensures path != [] && path[|path| - 1] != SLASH
  {
    TrailingSlash(path);
    assert !ComponentOk([]);
  }

  lemma TrailingSlash(path: Bytes)
    ensures path != [] && path[|path| - 1] == SLASH ==> Split(path)[|Split(path)| - 1] == []
  {
    if path != [] && path[|path| - 1] == SLASH {
      var front, none: Bytes := path[..|path| - 1], [];
      assert path == front + [SLASH] + none;
      SplitConcat(front, none);
    }
  }

  /** The directories above an accepted path are accepted too. */
  lemma AncestorOk(path: Bytes, dir: Bytes, maxPathBytes: nat)
    requires PathOk(path, maxPathBytes) && Below(path, dir) && dir != []
    ensures PathOk(dir, maxPathBytes)
  {
    var rest := path[|dir| + 1..];
    assert path == dir + [SLASH] + rest;
    SplitConcat(dir, rest);
    forall i | 0 <= i < |Split(dir)|
      ensures ComponentOk(Split(dir)[i])
    {
      assert Split(path)[i] == Split(dir)[i];
    }
    assert dir[0] == path[0];
    assert BACKSLASH !in dir by {
      assert forall i :: 0 <= i < |dir| ==> dir[i] == path[i];
    }
  }

  /** add_quota: file count, file size, checked total. */
  const U64_MAX: nat := 0xFFFF_FFFF_FFFF_FFFF

  function AddQuota(count: nat, total: nat, size: nat, limits: Limits): (r: Result<nat, AcquisitionError>)
    ensures r.Ok? ==>
      count < limits.maxFiles && size <= limits.maxFileBytes && r.value == total + size <= limits.maxTotalBytes
    ensures r.Ok? <==> count < limits.maxFiles && size <= limits.maxFileBytes && total + size <= limits.maxTotalBytes
                       && total + size <= U64_MAX
  {
    if count >= limits.maxFiles then Err(FileCountExceeded)
    else if size > limits.maxFileBytes then Err(FileBytesExceeded)
    else if total + size > U64_MAX || total + size > limits.maxTotalBytes then Err(TotalBytesExceeded)
    else Ok(total + size)
  }

  /** normalize_selected_roots: every root accepted, no two equal up to case, result in path order. */
  method NormalizeSelectedRoots(roots: seq<Bytes>, maxPathBytes: nat) returns (r: Result<seq<Bytes>, AcquisitionError>)
    ensures r.Ok? <==> (forall i :: 0 <= i < |roots| ==> PathOk(roots[i], maxPathBytes))
                       && (forall i, j :: 0 <= i < j < |roots| ==> Lower(roots[i]) != Lower(roots[j]))
    ensures r.Err? ==> r.error == InvalidSelectedRoot
    ensures r.Ok? ==> multiset(r.value) == multiset(roots)
    ensures r.Ok? ==> forall i, j :: 0 <= i < j < |r.value| ==> Less(r.value[i], r.value[j])
    ensures r.Ok? ==> forall p :: Selected(p, r.value) <==> Selected(p, roots)
  {
    var normalized: seq<File> := [];
    var seen: set<Bytes> := {};
    var i := 0;
    while i < |roots|
      invariant 0 <= i <= |roots| && |normalized| == i
      invariant forall j :: 0 <= j < i ==> PathOk(roots[j], maxPathBytes) && normalized[j] == File(roots[j], [], false)
      invariant forall k :: k in seen <==> exists j :: 0 <= j < i && k == Lower(roots[j])
      invariant forall j, k :: 0 <= j < k < i ==> Lower(roots[j]) != Lower(roots[k])
    {
      var root := NormalizePath(roots[i], maxPathBytes);
      if root.Err? {
        return Err(InvalidSelectedRoot);
      }
      if Lower(root.value) in seen {
        return Err(InvalidSelectedRoot);
      }
      seen := seen + {Lower(root.value)};
      normalized := normalized + [File(root.value, [], false)];
      i := i + 1;
    }
    assert DistinctPaths(normalized) by {
      forall j, k | 0 <= j < k < |normalized|
        ensures normalized[j].path != normalized[k].path
      {
        assert Lower(roots[j]) != Lower(roots[k]);
      }
    }
    var ordered := SortFiles(normalized);
    SortOrders(normalized);
    SortContents(normalized);
    SortMembers(normalized);
    var paths := seq(|ordered|, k requires 0 <= k < |ordered| => ordered[k].path);
    PathsOf(normalized, ordered, roots, paths);
    return Ok(paths);
  }

  /** Dropping everything but the path keeps the multiset and the selection. */
  lemma PathsOf(normalized: seq<File>, ordered: seq<File>, roots: seq<Bytes>, paths: seq<Bytes>)
    requires |normalized| == |roots| && |ordered| == |paths|
    requires forall i :: 0 <= i < |roots| ==> normalized[i] == File(roots[i], [], false)
    requires forall i :: 0 <= i < |ordered| ==> paths[i] == ordered[i].path
    requires multiset(normalized) == multiset(ordered)
    ensures multiset(paths) == multiset(roots)
    ensures forall p :: Selected(p, paths) <==> Selected(p, roots)
  {
    forall i | 0 <= i < |ordered|
      ensures ordered[i] == File(paths[i], [], false)
    {
      assert ordered[i] in multiset(normalized);
    }
    SamePaths(ordered, paths);
    SamePaths(normalized, roots);
    forall b: Bytes | true
      ensures multiset(paths)[b] == multiset(roots)[b]
    {
      assert multiset(paths)[b] == multiset(ordered)[File(b, [], false)];
    }
    assert multiset(paths) == multiset(roots);
    assert |paths| == |multiset(paths)| == |multiset(roots)| == |roots|;
    forall p | true
      ensures Selected(p, paths) <==> Selected(p, roots)
    {
      SelectedByMember(p, paths);
      SelectedByMember(p, roots);
      assert forall b :: b in paths <==> b in multiset(paths);
      assert forall b :: b in roots <==> b in multiset(roots);
    }
  }

  lemma SelectedByMember(p: Bytes, roots: seq<Bytes>)
    ensures Selected(p, roots) <==> roots == [] || exists r :: r in roots && (p == r || Below(p, r))
  {
    if roots != [] && Selected(p, roots) {
      var i :| 0 <= i < |roots| && (p == roots[i] || Below(p, roots[i]));
      assert roots[i] in roots;
    }
    if r :| r in roots && (p == r || Below(p, r)) {
      var i :| 0 <= i < |roots| && roots[i] == r;
    }
  }

  lemma {:induction false} SamePaths(files: seq<File>, paths: seq<Bytes>)
    requires |files| == |paths| && forall i :: 0 <= i < |files| ==> files[i] == File(paths[i], [], false)
    ensures forall b: Bytes :: multiset(paths)[b] == multiset(files)[File(b, [], false)]
  {
    if files != [] {
      var n := |files| - 1;
      SamePaths(files[..n], paths[..n]);
      assert files == files[..n] + [files[n]] && paths == paths[..n] + [paths[n]];
    }
  }
}
