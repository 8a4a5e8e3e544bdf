/**
 Which documents are accepted as bundles. `BundleExactly`: the document that lists some files is accepted if and only if
 the files are acceptable, and then gives back the selected ones. `OnlyBundles`: no other document is accepted.
 */
module BundleFiles {
  import opened Prelude
  import opened FileOrder
  import opened PathPolicy
  import opened Tar
  import opened TarBounds
  import opened TarPrinter
  import opened TarRoundTrip
  import opened TarFiles
  import opened Bundle

  function Listed(digest: Digest, f: File): BundleFile {
    BundleFile(f.path, f.executable, Hex(f.bytes), digest(f.bytes))
  }

  /** The document that lists these files. */
  function DocumentOf(digest: Digest, files: seq<File>): Document {
    Document(Ascii("promptectomy-source-bundle-1"),
             seq(|files|, i requires 0 <= i < |files| => Listed(digest, files[i])))
  }

  function SelectedOf(roots: seq<Bytes>, files: seq<File>): seq<File> {
    if files == [] then []
    else if Selected(files[0].path, roots) then [files[0]] + SelectedOf(roots, files[1..])
    else SelectedOf(roots, files[1..])
  }

  /** Accepted paths, distinct up to case, not too many of them, and the selected ones exist and fit the quotas. */
  ghost predicate Bundled(roots: seq<Bytes>, limits: Limits, files: seq<File>) {
    && |files| <= limits.maxFiles && SelectedOf(roots, files) != []
    && (forall f :: f in files ==> PathOk(f.path, limits.maxPathBytes))
    && (forall i, j :: 0 <= i < j < |files| ==> Lower(files[i].path) != Lower(files[j].path))
    && Fitting(limits, SelectedOf(roots, files))
  }

  // ---------------------------------------------------------------- as archive members

  function MemberOf(f: File): Member { Member.Regular(f, if f.executable then 0x1ED else 0x1A4, None, false, false) }

  function Members(files: seq<File>): (ms: seq<Member>)
    ensures |ms| == |files| && forall i :: 0 <= i < |files| ==> ms[i] == MemberOf(files[i])
  {
    seq(|files|, i requires 0 <= i < |files| => MemberOf(files[i]))
  }

  lemma ModesSay(f: File)
    requires f.path != [] && f.path[|f.path| - 1] != SLASH
    ensures Writable(MemberOf(f))
  {
    assert AnyExecute(0x1ED) && !AnyExecute(0x1A4);
    ExecutableExactly(0x1ED);
    ExecutableExactly(0x1A4);
  }

  lemma PacksRegular(f: File)
    requires Writable(MemberOf(f))
    ensures TarRoundTrip.Regular(Pack(MemberOf(f)))
  {
  }

  lemma {:induction false} SelectedMembers(roots: seq<Bytes>, files: seq<File>)
    ensures SelectedFiles(roots, Members(files)) == SelectedOf(roots, files)
  {
    if files != [] {
      var ms := Members(files);
      assert ms[0] == MemberOf(files[0]) && ms[1..] == Members(files[1..]);
      SelectedMembers(roots, files[1..]);
    }
  }

  lemma SameDocument(digest: Digest, files: seq<File>)
    requires forall i :: 0 <= i < |files| ==> Writable(MemberOf(files[i]))
    ensures ToBundle(digest, PackAll(Members(files))) == DocumentOf(digest, files)
  {
    hide Writable, Pack, Hex;
    var es := PackAll(Members(files));
    forall i | 0 <= i < |files|
      ensures ToBundleFile(digest, es[i]) == Listed(digest, files[i])
    {
      SameListing(digest, files[i]);
    }
  }

  lemma SameListing(digest: Digest, f: File)
    requires Writable(MemberOf(f))
    ensures ToBundleFile(digest, Pack(MemberOf(f))) == Listed(digest, f)
  {
    PackedFile(MemberOf(f));
    hide AnyExecute, Hex, PathOf;
  }

  lemma MembersAcceptable(roots: seq<Bytes>, limits: Limits, files: seq<File>)
    ensures Acceptable(roots, limits, Members(files)) && |files| <= limits.maxFiles && SelectedOf(roots, files) != []
       <==> Bundled(roots, limits, files)
  {
    hide PathOk, Lower, SelectedOf, SelectedFiles, Fitting;
    SelectedMembers(roots, files);
    var ms := Members(files);
    assert forall i :: 0 <= i < |files| ==> ms[i].Path() == files[i].path;
  }

  // ---------------------------------------------------------------- the documents

  /** What one listed file must be: an accepted path, and a content with its own digest, in hex. */
  ghost predicate Proper(digest: Digest, limits: Limits, b: BundleFile, content: Bytes) {
    PathOk(b.path, limits.maxPathBytes) && b.contentHex == Hex(content) && b.digest == digest(content)
  }

  lemma ProperOne(digest: Digest, roots: seq<Bytes>, limits: Limits, c: Collected, b: BundleFile)
    returns (content: Bytes)
    requires CollectFile(digest, roots, limits, c, b).Ok?
    ensures Proper(digest, limits, b, content)
  {
    hide PathOk, Lower, Selected, AddQuota, DecodeHex, Hex;
    content := DecodeHex(b.contentHex).value;
    HexExactly(b.contentHex, content);
  }

  lemma {:induction false} ProperAll(digest: Digest, roots: seq<Bytes>, limits: Limits, c: Collected,
      bs: seq<BundleFile>)
    returns (files: seq<File>)
    requires CollectFiles(digest, roots, limits, c, bs).Ok?
    ensures |files| == |bs| && forall i :: 0 <= i < |bs| ==>
      bs[i] == Listed(digest, files[i]) && PathOk(files[i].path, limits.maxPathBytes)
    decreases |bs|
  {
    hide CollectFile, PathOk, Hex;
    if bs == [] {
      files := [];
    } else {
      var content := ProperOne(digest, roots, limits, c, bs[0]);
      var rest := ProperAll(digest, roots, limits, CollectFile(digest, roots, limits, c, bs[0]).value, bs[1..]);
      files := [File(bs[0].path, content, bs[0].executable)] + rest;
    }
  }

  /** Whatever is accepted lists files in this way. */
  lemma OnlyBundles(digest: Digest, doc: Document, roots: seq<Bytes>, limits: Limits) returns (files: seq<File>)
    requires BundleOutcome(digest, doc, roots, limits).Ok?
    ensures doc == DocumentOf(digest, files) && forall f :: f in files ==> PathOk(f.path, limits.maxPathBytes)
  {
    hide CollectFiles, PathOk, Hex;
    files := ProperAll(digest, roots, limits, Nothing, doc.files);
    assert doc.files == DocumentOf(digest, files).files;
  }

  lemma ProperBundle(digest: Digest, files: seq<File>, roots: seq<Bytes>, limits: Limits)
    requires limits.maxTotalBytes <= U64_MAX && forall f :: f in files ==> PathOk(f.path, limits.maxPathBytes)
    ensures BundleOutcome(digest, DocumentOf(digest, files), roots, limits).Ok? <==> Bundled(roots, limits, files)
    ensures Bundled(roots, limits, files) ==>
      BundleOutcome(digest, DocumentOf(digest, files), roots, limits) == Ok(SortFiles(SelectedOf(roots, files)))
  {
    hide PathOk, Writable, CollectFiles, CollectFrom, Pack, Acceptable, Admissible, Bundled, FilesOf, SelectedFiles,
      SelectedOf, SortFiles;
    forall i | 0 <= i < |files|
      ensures Writable(MemberOf(files[i])) && TarRoundTrip.Regular(Pack(MemberOf(files[i])))
    {
      assert files[i] in files;
      EndsInName(files[i].path, limits.maxPathBytes);
      ModesSay(files[i]);
      PacksRegular(files[i]);
    }
    var ms, es := Members(files), PackAll(Members(files));
    SameDocument(digest, files);
    SameFiles(digest, roots, limits, Nothing, es);
    CollectExactly(roots, limits, Nothing, es);
    AcceptableIs(roots, limits, ms);
    MembersAcceptable(roots, limits, files);
    PackedFiles(roots, ms);
    SelectedMembers(roots, files);
    var none: seq<File> := [];
    assert none + FilesOf(roots, es) == FilesOf(roots, es);
  }

  /** The document that lists files is accepted exactly if they are acceptable, and gives back the selected ones. */
  lemma BundleExactly(digest: Digest, files: seq<File>, roots: seq<Bytes>, limits: Limits)
    requires limits.maxTotalBytes <= U64_MAX
    ensures BundleOutcome(digest, DocumentOf(digest, files), roots, limits).Ok? <==> Bundled(roots, limits, files)
    ensures Bundled(roots, limits, files) ==>
      BundleOutcome(digest, DocumentOf(digest, files), roots, limits) == Ok(SortFiles(SelectedOf(roots, files)))
  {
    hide PathOk, BundleOutcome, SelectedOf, Hex;
    if BundleOutcome(digest, DocumentOf(digest, files), roots, limits).Ok? {
      var same := OnlyBundles(digest, DocumentOf(digest, files), roots, limits);
      assert |same| == |files| by { assert |DocumentOf(digest, same).files| == |DocumentOf(digest, files).files|; }
      forall f | f in files
        ensures PathOk(f.path, limits.maxPathBytes)
      {
        var i :| 0 <= i < |files| && files[i] == f;
        assert DocumentOf(digest, files).files[i] == DocumentOf(digest, same).files[i];
        assert same[i] in same;
      }
      ProperBundle(digest, files, roots, limits);
    } else if Bundled(roots, limits, files) {
      ProperBundle(digest, files, roots, limits);
    }
  }
}
