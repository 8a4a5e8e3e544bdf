/** What a successful parse guarantees for every input, however the archive was made. */
module TarBounds {
  import opened Prelude
  import opened FileOrder
  import opened PathPolicy
  import opened Tar

  function TotalSize(files: seq<File>): nat {
    if files == [] then 0 else TotalSize(files[..|files| - 1]) + |files[|files| - 1].bytes|
  }

  /** A kept file: accepted, selected, within the size limit, and exactly the bytes of its own region. */
  ghost predicate FileGood(bytes: Bytes, roots: seq<Bytes>, limits: Limits, f: File, region: Region) {
    && PathOk(f.path, limits.maxPathBytes) && Selected(f.path, roots) && |f.bytes| <= limits.maxFileBytes
    && BLOCK <= region.start <= region.end <= |bytes| && region.start % BLOCK == 0
    && f.bytes == bytes[region.start..region.end]
  }

  ghost predicate Good(bytes: Bytes, roots: seq<Bytes>, limits: Limits, w: Walk) {
    && |w.files| == |w.regions| && w.offset <= |bytes| && w.offset % BLOCK == 0
    && (forall i :: 0 <= i < |w.files| ==>
          FileGood(bytes, roots, limits, w.files[i], w.regions[i]) && w.regions[i].end <= w.offset
            && Lower(w.files[i].path) in w.seen)
    // content regions are disjoint, with at least a header between any two
    && (forall i, j :: 0 <= i < j < |w.regions| ==> w.regions[i].end + BLOCK <= w.regions[j].start)
    && (forall i, j :: 0 <= i < j < |w.files| ==> Lower(w.files[i].path) != Lower(w.files[j].path))
    && |w.files| <= limits.maxFiles && w.total == TotalSize(w.files) <= limits.maxTotalBytes
  }

  /** One file more, with its own region of content, within every limit. */
  ghost predicate Appended(bytes: Bytes, roots: seq<Bytes>, limits: Limits, w: Walk, w': Walk, f: File,
      region: Region) {
    && w'.files == w.files + [f] && w'.regions == w.regions + [region] && w'.total == w.total + |f.bytes|
    && region.start == w.offset + BLOCK && region.end <= w'.offset && FileGood(bytes, roots, limits, f, region)
    && Lower(f.path) !in w.seen && Lower(f.path) in w'.seen
    && |w'.files| <= limits.maxFiles && w'.total <= limits.maxTotalBytes
  }

  /** What one member does to the walk, whatever it held. */
  lemma MemberEffect(bytes: Bytes, roots: seq<Bytes>, limits: Limits, w: Walk)
    requires w.offset + BLOCK <= |bytes| && w.offset % BLOCK == 0 && Member(bytes, roots, limits, w).Ok?
    ensures var w' := Member(bytes, roots, limits, w).value;
            && w.offset + BLOCK <= w'.offset <= |bytes| && w'.offset % BLOCK == 0 && w.seen <= w'.seen
            && ((w'.files == w.files && w'.regions == w.regions && w'.total == w.total)
                || exists f, region :: Appended(bytes, roots, limits, w, w', f, region))
  {
    hide HeaderPath, Selected, PathOk, MemberSize;
    var w' := Member(bytes, roots, limits, w).value;
    if w'.files != w.files {
      var f, region := w'.files[|w.files|], w'.regions[|w.regions|];
      assert w'.files == w.files + [f] && w'.regions == w.regions + [region];
      assert Appended(bytes, roots, limits, w, w', f, region);
    }
  }

  lemma MemberGood(bytes: Bytes, roots: seq<Bytes>, limits: Limits, w: Walk)
    requires Good(bytes, roots, limits, w) && w.offset + BLOCK <= |bytes| && Member(bytes, roots, limits, w).Ok?
    ensures Good(bytes, roots, limits, Member(bytes, roots, limits, w).value)
  {
    hide Member, FileGood;
    var w' := Member(bytes, roots, limits, w).value;
    MemberEffect(bytes, roots, limits, w);
    if w'.files != w.files {
      assert w'.files[..|w'.files| - 1] == w.files;
    }
  }

  lemma {:induction false} ParseFromGood(bytes: Bytes, roots: seq<Bytes>, limits: Limits, w: Walk)
    requires Good(bytes, roots, limits, w) && |bytes| % BLOCK == 0 && ParseFrom(bytes, roots, limits, w).Ok?
    ensures Good(bytes, roots, limits, ParseFrom(bytes, roots, limits, w).value)
    decreases |bytes| - w.offset
  {
    hide Member, FileGood;
    if !AllZero(bytes[w.offset..w.offset + BLOCK]) {
      MemberGood(bytes, roots, limits, w);
      ParseFromGood(bytes, roots, limits, Member(bytes, roots, limits, w).value);
    } else if w.zeroBlocks != 1 {
      ParseFromGood(bytes, roots, limits, w.(offset := w.offset + BLOCK, zeroBlocks := 1));
    }
  }

  lemma {:induction false} InsertTotal(f: File, files: seq<File>)
    ensures TotalSize(Insert(f, files)) == TotalSize(files) + |f.bytes|
  {
    if files == [] || Less(f.path, files[0].path) {
      PrependTotal(f, files);
    } else {
      InsertTotal(f, files[1..]);
      PrependTotal(files[0], Insert(f, files[1..]));
      PrependTotal(files[0], files[1..]);
      assert files == [files[0]] + files[1..];
    }
  }

  lemma {:induction false} PrependTotal(f: File, files: seq<File>)
    ensures TotalSize([f] + files) == |f.bytes| + TotalSize(files)
  {
    var all := [f] + files;
    if files == [] {
      assert all[..0] == [];
    } else {
      assert all[..|all| - 1] == [f] + files[..|files| - 1];
      PrependTotal(f, files[..|files| - 1]);
    }
  }

  lemma {:induction false} SortTotal(files: seq<File>)
    ensures TotalSize(SortFiles(files)) == TotalSize(files)
  {
    if files != [] {
      SortTotal(files[..|files| - 1]);
      InsertTotal(files[|files| - 1], SortFiles(files[..|files| - 1]));
    }
  }

  /**
   For every byte string and every limits: a successful parse returns strictly sorted, normalized, selected files
   that are distinct up to case, within the count, per-file and total limits, and each one is the content of its own
   block-aligned region of the archive, disjoint from all others.
   */
  lemma ParseBounds(bytes: Bytes, roots: seq<Bytes>, limits: Limits) returns (w: Walk)
    requires Parse(bytes, roots, limits).Ok?
    ensures Good(bytes, roots, limits, w) && Parse(bytes, roots, limits).value == SortFiles(w.files)
    ensures var files := Parse(bytes, roots, limits).value;
            && Sorted(files) && |files| <= limits.maxFiles && TotalSize(files) <= limits.maxTotalBytes
            && (forall i, j :: 0 <= i < |files| && 0 <= j < |files| && Lower(files[i].path) == Lower(files[j].path) ==>
                 i == j)
            && (forall f :: f in files ==>
                 PathOk(f.path, limits.maxPathBytes) && Selected(f.path, roots) && |f.bytes| <= limits.maxFileBytes)
  {
    hide ParseFrom, PathOk, Selected, SortFiles, TotalSize, Sorted, Lower;
    NothingRead(bytes, roots, limits);
    ParseFromGood(bytes, roots, limits, Begin);
    w := ParseFrom(bytes, roots, limits, Begin).value;
    FoldedImpliesDistinct(w.files);
    SortOrders(w.files);
    SortMembers(w.files);
    SortTotal(w.files);
    var files := SortFiles(w.files);
    forall f | f in files
      ensures PathOk(f.path, limits.maxPathBytes) && Selected(f.path, roots) && |f.bytes| <= limits.maxFileBytes
    {
      var i :| 0 <= i < |w.files| && w.files[i] == f;
      assert FileGood(bytes, roots, limits, w.files[i], w.regions[i]);
    }
    FoldedAfterSort(w.files);
  }

  lemma NothingRead(bytes: Bytes, roots: seq<Bytes>, limits: Limits)
    ensures Good(bytes, roots, limits, Begin)
  {
  }

  /** Sorting keeps paths distinct up to case. */
  lemma FoldedAfterSort(files: seq<File>)
    requires forall i, j :: 0 <= i < j < |files| ==> Lower(files[i].path) != Lower(files[j].path)
    ensures var s := SortFiles(files);
            forall i, j :: 0 <= i < |s| && 0 <= j < |s| && Lower(s[i].path) == Lower(s[j].path) ==> i == j
  {
    FoldedImpliesDistinct(files);
    SortOrders(files);
    SortMembers(files);
    var s := SortFiles(files);
    forall i, j | 0 <= i < j < |s|
      ensures Lower(s[i].path) != Lower(s[j].path)
    {
      assert s[i] in s && s[j] in s;
      var m :| 0 <= m < |files| && files[m] == s[i];
      var n :| 0 <= n < |files| && files[n] == s[j];
      LessTotal(s[i].path, s[j].path);
      assert m != n;
    }
  }

  lemma FoldedImpliesDistinct(files: seq<File>)
    requires forall i, j :: 0 <= i < j < |files| ==> Lower(files[i].path) != Lower(files[j].path)
    ensures DistinctPaths(files)
  {
  }
}
