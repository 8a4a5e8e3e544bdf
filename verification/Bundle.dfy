/**
 The hex source bundle, after its JSON document has been read. Main result: a tree of regular files gives the same
 outcome, file for file and error for error, as a tar archive and as a bundle.
 */
module Bundle {
  import opened Prelude
  import opened FileOrder
  import opened PathPolicy
  import opened Tar
  import opened TarPrinter
  import opened TarRoundTrip

  const BUNDLE_VERSION: Bytes := Ascii("promptectomy-source-bundle-1")

  datatype BundleFile = BundleFile(path: Bytes, executable: bool, contentHex: Bytes, digest: Bytes)
  datatype Document = Document(version: Bytes, files: seq<BundleFile>)

  /** digest_string, as a fixed function of the content. */
  type Digest = Bytes -> Bytes

  function HexChar(d: nat): byte
    requires d < 16
  {
    if d < 10 then 48 + d else 97 + (d - 10)
  }

  function Hex(b: Bytes): (h: Bytes)
    ensures |h| == 2 * |b|
  {
    if b == [] then [] else [HexChar(b[0] / 16), HexChar(b[0] % 16)] + Hex(b[1..])
  }

  method ToHex(bytes: Bytes) returns (output: Bytes)
    ensures output == Hex(bytes)
  {
    output := [];
    var i := 0;
    while i < |bytes|
      invariant 0 <= i <= |bytes|
      invariant output + Hex(bytes[i..]) == Hex(bytes)
    {
      var b := bytes[i];
      assert bytes[i..][0] == b && bytes[i..][1..] == bytes[i + 1..];
      assert output + ([HexChar(b / 16), HexChar(b % 16)] + Hex(bytes[i + 1..]))
          == output + [HexChar(b / 16)] + [HexChar(b % 16)] + Hex(bytes[i + 1..]);
      output := output + [HexChar(b / 16)];
      output := output + [HexChar(b % 16)];
      i := i + 1;
    }
    assert bytes[i..] == [] && output + [] == output;
  }

  function HexDigit(b: byte): Option<nat> {
    if 48 <= b <= 57 then Some(b - 48) else if 97 <= b <= 102 then Some(b - 97 + 10) else None
  }

  function DecodePairs(h: Bytes): Result<Bytes, AcquisitionError> {
    if |h| < 2 then Ok([])
    else if HexDigit(h[0]).None? || HexDigit(h[1]).None? then Err(InvalidBundle)
    else
      match DecodePairs(h[2..])
      case Err(e) => Err(e)
      case Ok(rest) => Ok([HexDigit(h[0]).value * 16 + HexDigit(h[1]).value] + rest)
  }

  function DecodeHex(h: Bytes): Result<Bytes, AcquisitionError> {
    if |h| % 2 != 0 || !IsAscii(h) then Err(InvalidBundle) else DecodePairs(h)
  }

  /** Decoding inverts encoding. */
  lemma {:induction false} HexRoundTrip(b: Bytes)
    ensures DecodePairs(Hex(b)) == Ok(b) && IsAscii(Hex(b))
  {
    if b != [] {
      HexRoundTrip(b[1..]);
      Nibbles(b[0]);
      hide HexDigit, HexChar, IsAscii;
      var high, low, rest := HexChar(b[0] / 16), HexChar(b[0] % 16), Hex(b[1..]);
      assert Hex(b) == [high, low] + rest;
      assert Hex(b)[2..] == rest;
      AsciiMore(high, low, rest);
      assert DecodePairs(Hex(b)) == Ok([b[0] / 16 * 16 + b[0] % 16] + b[1..]);
      assert b == [b[0]] + b[1..];
    }
  }

  lemma AsciiMore(x: byte, y: byte, rest: Bytes)
    requires x < 128 && y < 128 && IsAscii(rest)
    ensures IsAscii([x, y] + rest)
  {
  }

  lemma Nibbles(b: byte)
    ensures HexDigit(HexChar(b / 16)) == Some(b / 16) && HexDigit(HexChar(b % 16)) == Some(b % 16)
    ensures HexChar(b / 16) < 128 && HexChar(b % 16) < 128
  {
  }

  lemma NibblesBack(x: byte, y: byte)
    requires HexDigit(x).Some? && HexDigit(y).Some?
    ensures var v := HexDigit(x).value * 16 + HexDigit(y).value;
            v < 256 && HexChar(v / 16) == x && HexChar(v % 16) == y
  {
    var v := HexDigit(x).value * 16 + HexDigit(y).value;
    assert v / 16 == HexDigit(x).value && v % 16 == HexDigit(y).value;
  }

  /** And encoding inverts decoding: a content has exactly one accepted spelling. */
  lemma {:induction false} HexUnique(h: Bytes)
    requires |h| % 2 == 0 && DecodePairs(h).Ok?
    ensures Hex(DecodePairs(h).value) == h
  {
    if |h| >= 2 {
      HexUnique(h[2..]);
      NibblesBack(h[0], h[1]);
      hide HexDigit, HexChar;
      var d := DecodePairs(h).value;
      assert d[1..] == DecodePairs(h[2..]).value;
      assert h == [h[0], h[1]] + h[2..];
    }
  }

  /** A content text is accepted exactly if it is the encoding of what it decodes to. */
  lemma HexExactly(h: Bytes, b: Bytes)
    ensures DecodeHex(h) == Ok(b) <==> h == Hex(b)
  {
    hide Hex, DecodePairs, IsAscii;
    if h == Hex(b) {
      HexRoundTrip(b);
    }
    if DecodeHex(h) == Ok(b) {
      HexUnique(h);
    }
  }

  lemma HexSpelled(d: nat)
    requires d < 16
    ensures HexChar(d) == "0123456789abcdef"[d] as int
  {
  }

  function CollectFile(digest: Digest, roots: seq<Bytes>, limits: Limits, c: Collected,
      f: BundleFile): Result<Collected, AcquisitionError> {
    if !PathOk(f.path, limits.maxPathBytes) then Err(UnsafePath)
    else if Lower(f.path) in c.seen then Err(PathCollision)
    else
      var c1 := c.(seen := c.seen + {Lower(f.path)});
      match DecodeHex(f.contentHex)
      case Err(e) => Err(e)
      case Ok(content) =>
        if digest(content) != f.digest then Err(InvalidBundle)
        else if !Selected(f.path, roots) then Ok(c1)
        else
          match AddQuota(|c.files|, c.total, |content|, limits)
          case Err(e) => Err(e)
          case Ok(total) => Ok(c1.(files := c.files + [File(f.path, content, f.executable)], total := total))
  }

  function CollectFiles(digest: Digest, roots: seq<Bytes>, limits: Limits, c: Collected,
      fs: seq<BundleFile>): Result<Collected, AcquisitionError>
    decreases |fs|
  {
    if fs == [] then Ok(c)
    else
      match CollectFile(digest, roots, limits, c, fs[0])
      case Err(e) => Err(e)
      case Ok(c1) => CollectFiles(digest, roots, limits, c1, fs[1..])
  }

  /** Both collectors refuse an empty selection. */
  function NonEmpty(files: seq<File>): Result<seq<File>, AcquisitionError> {
    if files == [] then Err(EmptySelection) else Ok(SortFiles(files))
  }

  function BundleOutcome(digest: Digest, doc: Document, roots: seq<Bytes>, limits: Limits)
    : Result<seq<File>, AcquisitionError>
  {
    if doc.version != BUNDLE_VERSION || |doc.files| > limits.maxFiles then Err(InvalidBundle)
    else
      match CollectFiles(digest, roots, limits, Nothing, doc.files)
      case Err(e) => Err(e)
      case Ok(c) => NonEmpty(c.files)
  }

  method CollectBundle(digest: Digest, doc: Document, roots: seq<Bytes>, limits: Limits)
    returns (r: Result<seq<File>, AcquisitionError>)
    ensures r == BundleOutcome(digest, doc, roots, limits)
  {
    if doc.version != BUNDLE_VERSION || |doc.files| > limits.maxFiles {
      return Err(InvalidBundle);
    }
    var files: seq<File> := [];
    var seen: set<Bytes> := {};
    var total := 0;
    var i := 0;
    while i < |doc.files|
      invariant 0 <= i <= |doc.files|
      invariant CollectFiles(digest, roots, limits, Collected(files, seen, total), doc.files[i..])
             == CollectFiles(digest, roots, limits, Nothing, doc.files)
    {
      var file := doc.files[i];
      assert doc.files[i..][0] == file && doc.files[i..][1..] == doc.files[i + 1..];
      i := i + 1;
      var normalized := NormalizePath(file.path, limits.maxPathBytes);
      if normalized.Err? {
        return Err(normalized.error);
      }
      if Lower(normalized.value) in seen {
        return Err(PathCollision);
      }
      ghost var before := Collected(files, seen, total);
      seen := seen + {Lower(normalized.value)};
      var content := DecodeHex(file.contentHex);
      if content.Err? {
        return Err(content.error);
      }
      if digest(content.value) != file.digest {
        return Err(InvalidBundle);
      }
      if Selected(normalized.value, roots) {
        var quota := AddQuota(|files|, total, |content.value|, limits);
        if quota.Err? {
          return Err(quota.error);
        }
        total := quota.value;
        files := files + [File(normalized.value, content.value, file.executable)];
      }
      assert CollectFile(digest, roots, limits, before, file) == Ok(Collected(files, seen, total));
    }
    assert doc.files[i..] == [];
    return NonEmpty(files);
  }

  /** collect_archive: parse, then refuse an empty selection. */
  function ArchiveOutcome(bytes: Bytes, roots: seq<Bytes>, limits: Limits): Result<seq<File>, AcquisitionError> {
    match Parse(bytes, roots, limits)
    case Err(e) => Err(e)
    case Ok(files) => if files == [] then Err(EmptySelection) else Ok(files)
  }

  function ToBundleFile(digest: Digest, e: Entry): BundleFile {
    BundleFile(PathOf(e), AnyExecute(e.mode), Hex(e.content), digest(e.content))
  }

  function ToBundle(digest: Digest, es: seq<Entry>): Document {
    Document(BUNDLE_VERSION, seq(|es|, i requires 0 <= i < |es| => ToBundleFile(digest, es[i])))
  }

  lemma SameFile(digest: Digest, roots: seq<Bytes>, limits: Limits, c: Collected, e: Entry)
    requires Regular(e)
    ensures CollectFile(digest, roots, limits, c, ToBundleFile(digest, e)) == Collect(roots, limits, c, e)
  {
    hide PathOk, Lower, Selected, AddQuota, Hex, IsAscii, DecodeHex, PathOf, AnyExecute;
    HexExactly(Hex(e.content), e.content);
  }

  lemma {:induction false} SameFiles(digest: Digest, roots: seq<Bytes>, limits: Limits, c: Collected, es: seq<Entry>)
    requires forall i :: 0 <= i < |es| ==> Regular(es[i])
    ensures CollectFiles(digest, roots, limits, c, ToBundle(digest, es).files) == CollectFrom(roots, limits, c, es)
    decreases |es|
  {
    hide Collect, CollectFile, ToBundleFile;
    var fs := ToBundle(digest, es).files;
    if es != [] {
      SameFile(digest, roots, limits, c, es[0]);
      assert fs[0] == ToBundleFile(digest, es[0]) && fs[1..] == ToBundle(digest, es[1..]).files;
      var next := Collect(roots, limits, c, es[0]);
      if next.Ok? {
        SameFiles(digest, roots, limits, next.value, es[1..]);
      }
    }
  }

  /** The entries of an archive never fail as an invalid bundle or for its size. */
  lemma {:induction false} CollectNeverInvalidBundle(roots: seq<Bytes>, limits: Limits, c: Collected, es: seq<Entry>)
    ensures CollectFrom(roots, limits, c, es) != Err(InvalidBundle)
    ensures CollectFrom(roots, limits, c, es) != Err(ArchiveBytesExceeded)
    decreases |es|
  {
    hide PathOk, Lower, Selected;
    if es != [] && Collect(roots, limits, c, es[0]).Ok? {
      CollectNeverInvalidBundle(roots, limits, Collect(roots, limits, c, es[0]).value, es[1..]);
    }
  }

  /**
   One tree, two encodings, one outcome once the bytes are read: files and errors alike, exactly for trees of at most
   `maxFiles` entries. The bundle reader counts every entry against that limit, the archive reader only the selected
   ones.
   */
  lemma BundleMatchesTar(digest: Digest, es: seq<Entry>, roots: seq<Bytes>, limits: Limits)
    requires forall i :: 0 <= i < |es| ==> Slots(es[i]) && Fits(es[i])
    requires forall i :: 0 <= i < |es| ==> Regular(es[i])
    requires |Archive(es)| <= ISIZE_MAX
    ensures BundleOutcome(digest, ToBundle(digest, es), roots, limits) == ArchiveOutcome(Archive(es), roots, limits)
       <==> |es| <= limits.maxFiles
  {
    hide Fits, Slots, Archive, Parse, CollectFrom, CollectFiles;
    TarRoundTrip.TarRoundTrip(es, roots, limits);
    SameFiles(digest, roots, limits, Nothing, es);
    CollectNeverInvalidBundle(roots, limits, Nothing, es);
    var c := CollectFrom(roots, limits, Nothing, es);
    if c.Ok? {
      SortMembers(c.value.files);
    }
  }

  /** A bundle file: its size, and what its bytes parse to. */
  datatype Encoded = Encoded(size: nat, document: Option<Document>)

  /** collect_archive: read at most so many bytes, then parse. */
  function ReadArchive(bytes: Bytes, maxArchiveBytes: nat, roots: seq<Bytes>, limits: Limits)
    : Result<seq<File>, AcquisitionError>
  {
    if |bytes| > maxArchiveBytes then Err(ArchiveBytesExceeded) else ArchiveOutcome(bytes, roots, limits)
  }

  /** collect_bundle: likewise. */
  function ReadBundle(digest: Digest, file: Encoded, maxArchiveBytes: nat, roots: seq<Bytes>, limits: Limits)
    : Result<seq<File>, AcquisitionError>
  {
    if file.size > maxArchiveBytes then Err(ArchiveBytesExceeded)
    else if file.document.None? then Err(InvalidBundle)
    else BundleOutcome(digest, file.document.value, roots, limits)
  }

  /** Behind the bound neither outcome is that of the bound. */
  lemma OutcomesWithin(digest: Digest, es: seq<Entry>, roots: seq<Bytes>, limits: Limits)
    requires forall i :: 0 <= i < |es| ==> Slots(es[i]) && Fits(es[i])
    requires forall i :: 0 <= i < |es| ==> Regular(es[i])
    requires |Archive(es)| <= ISIZE_MAX
    ensures ArchiveOutcome(Archive(es), roots, limits) != Err(ArchiveBytesExceeded)
    ensures BundleOutcome(digest, ToBundle(digest, es), roots, limits) != Err(ArchiveBytesExceeded)
  {
    hide Fits, Slots, Archive, Parse, CollectFrom, CollectFiles;
    TarRoundTrip.TarRoundTrip(es, roots, limits);
    SameFiles(digest, roots, limits, Nothing, es);
    CollectNeverInvalidBundle(roots, limits, Nothing, es);
  }

  /**
   The two files of one tree, whole readers: they agree exactly if both are over the byte bound, or both are within it
   and there are at most `maxFiles` entries.
   */
  lemma ReadersMatchExactly(digest: Digest, es: seq<Entry>, file: Encoded, maxArchiveBytes: nat, roots: seq<Bytes>,
      limits: Limits)
    requires forall i :: 0 <= i < |es| ==> Slots(es[i]) && Fits(es[i])
    requires forall i :: 0 <= i < |es| ==> Regular(es[i])
    requires |Archive(es)| <= ISIZE_MAX && file.document == Some(ToBundle(digest, es))
    ensures ReadBundle(digest, file, maxArchiveBytes, roots, limits)
            == ReadArchive(Archive(es), maxArchiveBytes, roots, limits)
       <==> if file.size > maxArchiveBytes then |Archive(es)| > maxArchiveBytes
            else |Archive(es)| <= maxArchiveBytes && |es| <= limits.maxFiles
  {
    hide Fits, Slots, Archive, ArchiveOutcome, BundleOutcome;
    BundleMatchesTar(digest, es, roots, limits);
    OutcomesWithin(digest, es, roots, limits);
  }

  // ---------------------------------------------------------------- archives with directories

  /** The regular entries, in archive order. */
  function Regulars(es: seq<Entry>): seq<Entry> {
    if es == [] then [] else (if Regular(es[0]) then [es[0]] else []) + Regulars(es[1..])
  }

  lemma {:induction false} RegularsAreRegular(es: seq<Entry>)
    ensures |Regulars(es)| <= |es| && forall i :: 0 <= i < |Regulars(es)| ==> Regular(Regulars(es)[i])
  {
    if es != [] {
      RegularsAreRegular(es[1..]);
    }
  }

  /** Dropping the directories of an accepted list keeps it accepted, with the same files. */
  lemma {:induction false} RegularsCollect(roots: seq<Bytes>, limits: Limits, c: Collected, seen: set<Bytes>,
      es: seq<Entry>)
    requires seen <= c.seen && CollectFrom(roots, limits, c, es).Ok?
    ensures var r := CollectFrom(roots, limits, c.(seen := seen), Regulars(es));
            r.Ok? && r.value.files == CollectFrom(roots, limits, c, es).value.files
    decreases |es|
  {
    hide PathOk, Lower, Selected, AddQuota;
    if es != [] {
      var next := Collect(roots, limits, c, es[0]).value;
      if Regular(es[0]) {
        var fewer := Collect(roots, limits, c.(seen := seen), es[0]).value;
        assert fewer == next.(seen := fewer.seen) && fewer.seen <= next.seen;
        RegularsCollect(roots, limits, next, fewer.seen, es[1..]);
        assert Regulars(es)[1..] == Regulars(es[1..]);
      } else {
        assert next == c.(seen := next.seen) && seen <= next.seen;
        RegularsCollect(roots, limits, next, seen, es[1..]);
        assert Regulars(es) == Regulars(es[1..]);
      }
    }
  }

  /** What the bundle of an accepted archive gives once its bytes are read. */
  lemma OutcomeOfArchive(digest: Digest, es: seq<Entry>, roots: seq<Bytes>, limits: Limits)
    requires forall i :: 0 <= i < |es| ==> Slots(es[i]) && Fits(es[i])
    requires |Archive(es)| <= ISIZE_MAX && ArchiveOutcome(Archive(es), roots, limits).Ok?
    ensures BundleOutcome(digest, ToBundle(digest, Regulars(es)), roots, limits)
         == if |Regulars(es)| <= limits.maxFiles then ArchiveOutcome(Archive(es), roots, limits) else Err(InvalidBundle)
  {
    hide Fits, Slots, Archive, Parse, CollectFrom, CollectFiles, Regulars;
    TarRoundTrip.TarRoundTrip(es, roots, limits);
    RegularsAreRegular(es);
    SameFiles(digest, roots, limits, Nothing, Regulars(es));
    RegularsCollect(roots, limits, Nothing, {}, es);
    SortMembers(CollectFrom(roots, limits, Nothing, es).value.files);
  }

  /**
   Bundling the regular members of an accepted archive, directories and all, gives the files of that archive exactly
   when there are at most `maxFiles` of them and the bundle is within the byte bound; otherwise the bundle is refused.
   */
  lemma BundleOfArchive(digest: Digest, es: seq<Entry>, file: Encoded, maxArchiveBytes: nat, roots: seq<Bytes>,
                        limits: Limits)
    requires forall i :: 0 <= i < |es| ==> Slots(es[i]) && Fits(es[i])
    requires |Archive(es)| <= ISIZE_MAX && ReadArchive(Archive(es), maxArchiveBytes, roots, limits).Ok?
    requires file.document == Some(ToBundle(digest, Regulars(es)))
    ensures ReadBundle(digest, file, maxArchiveBytes, roots, limits) ==
            if file.size > maxArchiveBytes then Err(ArchiveBytesExceeded)
            else if |Regulars(es)| > limits.maxFiles then Err(InvalidBundle)
            else ReadArchive(Archive(es), maxArchiveBytes, roots, limits)
  {
    hide Fits, Slots, Archive, ArchiveOutcome, BundleOutcome, Regulars;
    OutcomeOfArchive(digest, es, roots, limits);
  }

  const Inside := Entry([], [97], 0, 48, [], false)
  const Outside := Entry([], [98], 0, 48, [], false)
  const OneFile := Limits(1, 1, 1, 8)

  lemma LetterOk(b: byte)
    requires b == 97 || b == 98
    ensures PathOk([b], 8) && Lower([b]) == [b]
  {
    assert [b][1..] == [] && [b] + [] == [b];
    SplitStep([b], [[]]);
    assert Split([b]) == [[b]];
    assert Stem([b]) == [b] by { assert Stem([]) == []; }
    assert |Ascii(".git")| == 4 && forall i :: 0 <= i < |WINDOWS_DEVICES| ==> |Ascii(WINDOWS_DEVICES[i])| >= 3;
  }

  lemma BothFit()
    ensures Slots(Inside) && Fits(Inside) && Slots(Outside) && Fits(Outside)
            && |Archive([Inside, Outside])| <= ISIZE_MAX
  {
    hide Header;
    Pow8Values();
    assert Padding(0) == 0 && |PrintEntry(Inside)| == |PrintEntry(Outside)| == BLOCK;
    assert [Outside][1..] == [] && [Inside, Outside][1..] == [Outside];
    hide PrintEntry;
    assert PrintAll([]) == [];
    assert PrintAll([Outside]) == PrintEntry(Outside) + PrintAll([]);
    assert PrintAll([Inside, Outside]) == PrintEntry(Inside) + PrintAll([Outside]);
  }

  const OnlyInside := File([97], [], false)

  lemma InsideCollects()
    ensures Collect([[97]], OneFile, Nothing, Inside) == Ok(Collected([OnlyInside], {[97]}, 0))
  {
    LetterOk(97);
    hide PathOk, Lower;
    assert PathOf(Inside) == [97] && FileOf(Inside) == OnlyInside;
    assert Selected([97], [[97]]) by { assert [[97]][0] == [97]; }
    assert AddQuota(0, 0, 0, OneFile) == Ok(0);
    assert Nothing.files + [OnlyInside] == [OnlyInside] && Nothing.seen + {[97]} == {[97]};
  }

  lemma OutsideCollects(c: Collected)
    requires c.seen == {[97]}
    ensures Collect([[97]], OneFile, c, Outside) == Ok(c.(seen := {[97]} + {[98]}))
  {
    LetterOk(98);
    hide PathOk, Lower;
    assert PathOf(Outside) == [98] && !Selected([98], [[97]]);
    assert [98] !in c.seen by { assert [98][0] != [97][0]; }
  }

  lemma TwoCollect()
    ensures CollectFrom([[97]], OneFile, Nothing, [Inside, Outside]) == Ok(Collected([OnlyInside], {[97]} + {[98]}, 0))
  {
    hide Collect;
    InsideCollects();
    var one := Collected([OnlyInside], {[97]}, 0);
    OutsideCollects(one);
    assert [Inside, Outside][1..] == [Outside] && [Outside][1..] == [];
    assert CollectFrom([[97]], OneFile, one, [Outside]) == Ok(one.(seen := {[97]} + {[98]}));
  }

  /** Two files of which one is selected, and room for one: the archive is accepted and the bundle is not. */
  lemma UnselectedEntriesCount(digest: Digest)
    ensures Slots(Inside) && Slots(Outside)
    ensures ArchiveOutcome(Archive([Inside, Outside]), [[97]], OneFile) == Ok([OnlyInside])
    ensures BundleOutcome(digest, ToBundle(digest, [Inside, Outside]), [[97]], OneFile) == Err(InvalidBundle)
  {
    BothFit();
    TwoCollect();
    hide Fits, Archive, Parse, CollectFrom;
    TarRoundTrip.TarRoundTrip([Inside, Outside], [[97]], OneFile);
    assert SortFiles([OnlyInside]) == [OnlyInside] by { assert [OnlyInside][..0] == []; }
  }
}
