/**
 Reading back what was written. `TarRoundTrip` holds for every list of entries whose fields fit: the parser does to
 the printed archive exactly what `CollectFrom` does to the entries, error for error. `CollectExactly` says when that
 succeeds and with which files.
 */
module TarRoundTrip {
  import opened Prelude
  import opened FileOrder
  import opened PathPolicy
  import opened Octal
  import opened Tar
  import opened TarBounds
  import opened TarPrinter

  datatype Collected = Collected(files: seq<File>, seen: set<Bytes>, total: nat)

  function PathOf(e: Entry): Bytes { RawPath(e.prefix, e.name) }

  function FileOf(e: Entry): File { File(PathOf(e), e.content, AnyExecute(e.mode)) }

  predicate Regular(e: Entry) { e.kind == 0 || e.kind == 48 }

  /** What collecting one entry means, without any archive in between. */
  function Collect(roots: seq<Bytes>, limits: Limits, c: Collected, e: Entry): Result<Collected, AcquisitionError> {
    if !PathOk(PathOf(e), limits.maxPathBytes) then Err(UnsafePath)
    else if Lower(PathOf(e)) in c.seen then Err(PathCollision)
    else
      var c1 := c.(seen := c.seen + {Lower(PathOf(e))});
      if e.kind == 53 then
        if e.content != [] then Err(UnsupportedArchive) else Ok(c1)
      else if !Regular(e) then Err(UnsupportedFileType)
      else if !Selected(PathOf(e), roots) then Ok(c1)
      else
        match AddQuota(|c.files|, c.total, |e.content|, limits)
        case Err(err) => Err(err)
        case Ok(total) => Ok(c1.(files := c.files + [FileOf(e)], total := total))
  }

  function CollectFrom(roots: seq<Bytes>, limits: Limits, c: Collected, es: seq<Entry>)
    : Result<Collected, AcquisitionError>
    decreases |es|
  {
    if es == [] then Ok(c)
    else
      match Collect(roots, limits, c, es[0])
      case Err(e) => Err(e)
      case Ok(c1) => CollectFrom(roots, limits, c1, es[1..])
  }

  // ---------------------------------------------------------------- one header

  lemma {:induction false} UntilNulField(text: Bytes, n: nat)
    requires 0 !in text
    ensures UntilNul(text + Zeros(n)) == text
  {
    var f := text + Zeros(n);
    if text == [] {
      assert n == 0 ==> f == [];
    } else {
      assert f[0] == text[0] && f[1..] == text[1..] + Zeros(n);
      UntilNulField(text[1..], n);
      assert text == [text[0]] + text[1..];
    }
  }

  /** Where the parser looks, and what is there. */
  lemma HeaderFields(e: Entry)
    requires Slots(e)
    ensures var h := Header(e);
            && h[..100] == Field(e.name, 100) && h[100..108] == Number(e.mode, 8)
            && h[124..136] == Number(|e.content|, 12)
            && h[156] == e.kind && h[257..263] == Magic(e.gnu) && h[345..500] == Field(e.prefix, 155)
  {
    var h := Header(e);
    LeftFields(e);
    RightFields(e);
    hide Left, Right;
    assert h[..148] == Left(e) && h[156..] == Right(e);
    assert h[..100] == h[..148][..100] && h[100..108] == h[..148][100..108] && h[124..136] == h[..148][124..136];
    assert h[156] == h[156..][0] && h[257..263] == h[156..][101..107] && h[345..500] == h[156..][189..344];
  }

  lemma LeftFields(e: Entry)
    requires |e.name| <= 100
    ensures Left(e)[..100] == Field(e.name, 100) && Left(e)[100..108] == Number(e.mode, 8)
            && Left(e)[124..136] == Number(|e.content|, 12)
  {
    hide Field, Number;
    var a, m, z, s, t := Field(e.name, 100), Number(e.mode, 8), Number(0, 8), Number(|e.content|, 12), Number(0, 12);
    var l := Left(e);
    assert l == a + (m + (z + z)) + (s + t);
    assert l[..100] == a;
    assert l[100..108] == m;
    assert l[124..136] == s;
  }

  lemma RightFields(e: Entry)
    requires |e.prefix| <= 155
    ensures Right(e)[0] == e.kind && Right(e)[101..107] == Magic(e.gnu) && Right(e)[189..344] == Field(e.prefix, 155)
  {
    hide Field, Zeros;
    var r := Right(e);
    assert r == ([e.kind] + Zeros(100)) + (Magic(e.gnu) + [ZERO, ZERO]) + Zeros(80)
      + (Field(e.prefix, 155) + Zeros(12));
    assert r[101..107] == Magic(e.gnu);
    assert r[189..344] == Field(e.prefix, 155);
  }

  predicate CleanBytes(b: Bytes) { forall i :: 0 <= i < |b| ==> !IsControl(b[i]) && b[i] < 128 }

  lemma CleanText(text: Bytes, width: nat)
    requires |text| <= width && CleanBytes(text)
    ensures TarText(Field(text, width)) == Ok(text)
  {
    UntilNulField(text, width - |text|);
  }

  lemma CleanParts(prefix: Bytes, name: Bytes)
    requires CleanBytes(RawPath(prefix, name))
    ensures CleanBytes(prefix) && CleanBytes(name)
  {
    var full := if prefix == [] then name else prefix + [SLASH] + name;
    var raw := RawPath(prefix, name);
    assert forall i :: 0 <= i < |raw| ==> full[i] == raw[i];
    assert CleanBytes(full);
    assert forall i :: 0 <= i < |prefix| ==> prefix[i] == full[i];
    assert forall i :: 0 <= i < |name| ==> name[i] == full[|full| - |name| + i];
  }

  /** A control byte or a non-ASCII byte in either field spoils the joined path too. */
  lemma BadTextBadPath(e: Entry, maxPathBytes: nat)
    requires Fits(e)
    requires PathOk(PathOf(e), maxPathBytes)
    ensures TarText(Field(e.name, 100)) == Ok(e.name) && TarText(Field(e.prefix, 155)) == Ok(e.prefix)
  {
    hide TarText, Field, RawPath;
    OkPathBytes(PathOf(e), maxPathBytes);
    CleanParts(e.prefix, e.name);
    CleanText(e.name, 100);
    CleanText(e.prefix, 155);
  }

  lemma {:induction false} SplitBytes(b: Bytes)
    requires forall k :: 0 <= k < |Split(b)| ==> forall i :: 0 <= i < |Split(b)[k]| ==> !IsControl(Split(b)[k][i])
    ensures forall i :: 0 <= i < |b| ==> !IsControl(b[i])
  {
    if b != [] {
      var rest := Split(b[1..]);
      var parts := Split(b);
      forall k | 0 <= k < |rest|
        ensures forall i :: 0 <= i < |rest[k]| ==> !IsControl(rest[k][i])
      {
        if b[0] == SLASH {
          assert parts[k + 1] == rest[k];
        } else if k == 0 {
          assert forall i :: 0 <= i < |rest[0]| ==> rest[0][i] == parts[0][i + 1];
        } else {
          assert parts[k] == rest[k];
        }
      }
      SplitBytes(b[1..]);
      if b[0] != SLASH {
        assert parts[0][0] == b[0];
      }
      assert forall i :: 1 <= i < |b| ==> b[i] == b[1..][i - 1];
    }
  }

  lemma OkPathBytes(raw: Bytes, maxPathBytes: nat)
    requires PathOk(raw, maxPathBytes)
    ensures forall i :: 0 <= i < |raw| ==> !IsControl(raw[i]) && raw[i] < 128
  {
    forall k | 0 <= k < |Split(raw)|
      ensures forall i :: 0 <= i < |Split(raw)[k]| ==> !IsControl(Split(raw)[k][i])
    {
      assert ComponentOk(Split(raw)[k]);
    }
    SplitBytes(raw);
  }

  /** The header yields the entry's path, or refuses it with the error normalization gives. */
  lemma HeaderPathPrinted(e: Entry, limits: Limits)
    requires Fits(e)
    ensures HeaderPath(Header(e), limits) == if PathOk(PathOf(e), limits.maxPathBytes) then Ok(PathOf(e))
      else Err(UnsafePath)
  {
    HeaderChecksum(e);
    HeaderFields(e);
    hide Header, PathOk, Checksum, Field;
    if PathOk(PathOf(e), limits.maxPathBytes) {
      BadTextBadPath(e, limits.maxPathBytes);
    } else {
      TextOrUnsafe(e.name, 100);
      TextOrUnsafe(e.prefix, 155);
    }
  }

  lemma TextOrUnsafe(text: Bytes, width: nat)
    requires |text| <= width && 0 !in text
    ensures TarText(Field(text, width)) == Ok(text) || TarText(Field(text, width)) == Err(UnsafePath)
  {
    UntilNulField(text, width - |text|);
  }

  lemma PaddedIs(size: nat)
    ensures Padded(size) == size + Padding(size) && Padded(size) % BLOCK == 0
  {
    hide Padded, Padding;
    var a, b := Padded(size) / 512, (size + Padding(size)) / 512;
    assert Padded(size) == 512 * a && size + Padding(size) == 512 * b;
  }

  // ---------------------------------------------------------------- one member, then all of them

  function Gathered(w: Walk): Collected { Collected(w.files, w.seen, w.total) }

  ghost predicate Matches(parsed: Result<Walk, AcquisitionError>, collected: Result<Collected, AcquisitionError>,
      offset: nat) {
    match (parsed, collected)
    case (Ok(w), Ok(c)) => Gathered(w) == c && w.offset == offset && w.zeroBlocks == 0
    case (Err(e), Err(f)) => e == f
    case _ => false
  }

  /** The slices of a printed member inside a longer archive. */
  lemma PrintedSlices(pre: Bytes, e: Entry, post: Bytes)
    requires Slots(e)
    ensures var bytes := pre + PrintEntry(e) + post;
            var start := |pre| + BLOCK;
            && |PrintEntry(e)| == BLOCK + Padded(|e.content|) && |bytes| == |pre| + BLOCK + Padded(|e.content|) + |post|
            && bytes[|pre|..start] == Header(e) && bytes[start..start + |e.content|] == e.content
  {
    hide Header;
    PaddedIs(|e.content|);
    var bytes := pre + PrintEntry(e) + post;
    assert bytes == pre + (Header(e) + (e.content + (Zeros(Padding(|e.content|)) + post)));
  }

  lemma SizeWritten(e: Entry)
    requires Fits(e)
    ensures ParseOctal(Number(|e.content|, 12)) == Ok(|e.content|) && ParseOctal(Number(e.mode, 8)) == Ok(e.mode)
  {
    assert Pow8(11) <= U64_MAX && Pow8(7) <= U64_MAX by { Pow8Values(); }
    ParseWritten(|e.content|, 11, [0]);
    ParseWritten(e.mode, 7, [0]);
  }

  lemma Pow8Values()
    ensures Pow8(7) == 2097152 && Pow8(11) == 8589934592
  {
    assert Pow8(1) == 8 && Pow8(2) == 64 && Pow8(3) == 512 && Pow8(4) == 4096 && Pow8(5) == 32768 && Pow8(6) == 262144;
    assert Pow8(7) == 2097152 && Pow8(8) == 16777216 && Pow8(9) == 134217728 && Pow8(10) == 1073741824;
  }

  /** Member, given what its header says. */
  lemma MemberSays(bytes: Bytes, header: Bytes, e: Entry, roots: seq<Bytes>, limits: Limits, w: Walk)
    requires w.zeroBlocks == 0 && w.offset + BLOCK <= |bytes| && bytes[w.offset..w.offset + BLOCK] == header
    requires HeaderPath(header, limits) == if PathOk(PathOf(e), limits.maxPathBytes) then Ok(PathOf(e))
      else Err(UnsafePath)
    requires MemberSize(header, w.offset + BLOCK, |bytes|) == Ok(|e.content|)
    requires header[156] == e.kind && ParseOctal(header[100..108]) == Ok(e.mode)
    requires w.offset + BLOCK + |e.content| <= |bytes|
             && bytes[w.offset + BLOCK..w.offset + BLOCK + |e.content|] == e.content
    ensures Matches(Member(bytes, roots, limits, w), Collect(roots, limits, Gathered(w), e),
            w.offset + BLOCK + Padded(|e.content|))
  {
    hide HeaderPath, PathOk, Selected, ParseOctal, Lower, AddQuota, AnyExecute, MemberSize, Padded, PathOf;
  }

  lemma HeaderSays(e: Entry, offset: nat, length: nat)
    requires Fits(e) && offset + Padded(|e.content|) <= length <= ISIZE_MAX && |e.content| <= Padded(|e.content|)
    ensures MemberSize(Header(e), offset, length) == Ok(|e.content|)
    ensures Header(e)[156] == e.kind && ParseOctal(Header(e)[100..108]) == Ok(e.mode)
  {
    HeaderFields(e);
    SizeWritten(e);
    Pow8Values();
    hide Header, ParseOctal, Number, Field, Pow8;
  }

  /** A member found where its header and content are. */
  lemma MemberPrinted(bytes: Bytes, e: Entry, roots: seq<Bytes>, limits: Limits, w: Walk)
    requires Fits(e) && w.zeroBlocks == 0 && w.offset + BLOCK + Padded(|e.content|) <= |bytes| <= ISIZE_MAX
    requires |e.content| <= Padded(|e.content|)
    requires bytes[w.offset..w.offset + BLOCK] == Header(e)
    requires bytes[w.offset + BLOCK..w.offset + BLOCK + |e.content|] == e.content
    ensures Matches(Member(bytes, roots, limits, w), Collect(roots, limits, Gathered(w), e),
            w.offset + BLOCK + Padded(|e.content|))
  {
    hide Member, Collect, Matches, MemberSize, HeaderPath, ParseOctal, Header, PathOk;
    HeaderPathPrinted(e, limits);
    HeaderSays(e, w.offset + BLOCK, |bytes|);
    MemberSays(bytes, Header(e), e, roots, limits, w);
  }

  /** A printed header is never a zero block: its name is not empty. */
  lemma HeaderNotZero(e: Entry)
    requires Fits(e)
    ensures !AllZero(Header(e))
  {
    HeaderFields(e);
    assert Header(e)[0] == Header(e)[..100][0] == e.name[0];
    assert e.name[0] in e.name;
  }

  /** What may follow the members: nothing, or a zero block and whole blocks of anything. */
  predicate Ending(tail: Bytes) {
    |tail| % BLOCK == 0 && (tail == [] || (|tail| >= BLOCK && AllZero(tail[..BLOCK])))
  }

  /** Two zero blocks or more, and nothing else. */
  predicate Complete(tail: Bytes) { |tail| >= 2 * BLOCK && AllZero(tail) }

  lemma ParseEnd(pre: Bytes, tail: Bytes, roots: seq<Bytes>, limits: Limits, w: Walk)
    requires w.offset == |pre| && |pre| % BLOCK == 0 && w.zeroBlocks == 0 && Ending(tail)
    ensures |pre + tail| % BLOCK == 0
    ensures var r := ParseFrom(pre + tail, roots, limits, w);
            if Complete(tail) then r.Ok? && Gathered(r.value) == Gathered(w) else r == Err(UnsupportedArchive)
  {
    hide Member, AllZero;
    var bytes := pre + tail;
    if tail != [] {
      assert bytes[|pre|..|pre| + BLOCK] == tail[..BLOCK];
      var w1 := w.(offset := w.offset + BLOCK, zeroBlocks := 1);
      assert ParseFrom(bytes, roots, limits, w) == ParseFrom(bytes, roots, limits, w1);
      SecondBlock(pre, tail, roots, limits, w1);
    }
  }

  lemma SecondBlock(pre: Bytes, tail: Bytes, roots: seq<Bytes>, limits: Limits, w: Walk)
    requires w.offset == |pre| + BLOCK && |pre| % BLOCK == 0 && w.zeroBlocks == 1
    requires |tail| % BLOCK == 0 && |tail| >= BLOCK && AllZero(tail[..BLOCK])
    ensures ParseFrom(pre + tail, roots, limits, w) == if Complete(tail) then Ok(w) else Err(UnsupportedArchive)
  {
    hide Member;
    var bytes := pre + tail;
    if |tail| >= 2 * BLOCK {
      var second, rest := tail[BLOCK..2 * BLOCK], tail[2 * BLOCK..];
      assert bytes[w.offset..w.offset + BLOCK] == second && bytes[w.offset + BLOCK..] == rest;
      assert tail == tail[..BLOCK] + second + rest;
      ZeroParts(tail[..BLOCK], second, rest);
    }
  }

  lemma ZeroParts(a: Bytes, b: Bytes, c: Bytes)
    ensures AllZero(a + b + c) <==> AllZero(a) && AllZero(b) && AllZero(c)
  {
    var all := a + b + c;
    if AllZero(all) {
      forall i | 0 <= i < |b|
        ensures b[i] == 0
      {
        assert b[i] == all[|a| + i];
      }
      forall i | 0 <= i < |c|
        ensures c[i] == 0
      {
        assert c[i] == all[|a| + |b| + i];
      }
      assert forall i :: 0 <= i < |a| ==> a[i] == all[i];
    }
  }

  lemma EntryAligned(e: Entry)
    requires Slots(e)
    ensures |PrintEntry(e)| % BLOCK == 0
  {
    hide PrintEntry, Padded, Padding;
    PrintedSlices([], e, []);
    PaddedIs(|e.content|);
  }

  lemma {:induction false} PrintAllAligned(es: seq<Entry>)
    requires forall i :: 0 <= i < |es| ==> Slots(es[i])
    ensures |PrintAll(es)| % BLOCK == 0
  {
    hide PrintEntry, Slots, Fits;
    if es != [] {
      EntryAligned(es[0]);
      PrintAllAligned(es[1..]);
    }
  }

  lemma ParseStep(bytes: Bytes, roots: seq<Bytes>, limits: Limits, w: Walk)
    requires w.offset + BLOCK <= |bytes| && |bytes| % BLOCK == 0 && w.offset % BLOCK == 0 && w.zeroBlocks == 0
    requires !AllZero(bytes[w.offset..w.offset + BLOCK])
    ensures var next := Member(bytes, roots, limits, w);
            ParseFrom(bytes, roots, limits, w) == if next.Err? then Err(next.error)
              else ParseFrom(bytes, roots, limits, next.value)
  {
    hide Member;
  }

  /** Parsed from here on, the archive says what collecting from here on says, if it is complete. */
  ghost predicate ParsesAs(bytes: Bytes, roots: seq<Bytes>, limits: Limits, w: Walk, es: seq<Entry>, complete: bool)
    requires w.offset <= |bytes| && |bytes| % BLOCK == 0 && w.offset % BLOCK == 0
  {
    match CollectFrom(roots, limits, Gathered(w), es)
    case Err(e) => ParseFrom(bytes, roots, limits, w) == Err(e)
    case Ok(c) =>
      var r := ParseFrom(bytes, roots, limits, w);
      if complete then r.Ok? && Gathered(r.value) == c else r == Err(UnsupportedArchive)
  }

  /** One printed entry at the current offset. */
  lemma ParsesOne(bytes: Bytes, e: Entry, rest: seq<Entry>, roots: seq<Bytes>, limits: Limits, w: Walk, complete: bool)
    requires Fits(e) && w.zeroBlocks == 0 && w.offset + BLOCK + Padded(|e.content|) <= |bytes| <= ISIZE_MAX
    requires |bytes| % BLOCK == 0 && w.offset % BLOCK == 0 && |e.content| <= Padded(|e.content|)
    requires bytes[w.offset..w.offset + BLOCK] == Header(e)
    requires bytes[w.offset + BLOCK..w.offset + BLOCK + |e.content|] == e.content
    requires var next := Member(bytes, roots, limits, w); next.Ok? ==>
      ParsesAs(bytes, roots, limits, next.value, rest, complete)
    ensures ParsesAs(bytes, roots, limits, w, [e] + rest, complete)
  {
    hide Header, Padded, Collect, Fits, Member;
    assert ([e] + rest)[0] == e && ([e] + rest)[1..] == rest;
    MemberPrinted(bytes, e, roots, limits, w);
    HeaderNotZero(e);
    ParseStep(bytes, roots, limits, w);
  }

  lemma {:induction false} ParsePrinted(pre: Bytes, es: seq<Entry>, tail: Bytes, roots: seq<Bytes>, limits: Limits,
      w: Walk, bytes: Bytes)
    requires forall i :: 0 <= i < |es| ==> Slots(es[i]) && Fits(es[i])
    requires bytes == pre + PrintAll(es) + tail && |bytes| <= ISIZE_MAX && |bytes| % BLOCK == 0 && Ending(tail)
    requires w.offset == |pre| && |pre| % BLOCK == 0 && w.zeroBlocks == 0
    ensures ParsesAs(bytes, roots, limits, w, es, Complete(tail))
    decreases |es|
  {
    hide Collect, Member, PrintEntry, Ending, Complete, ParsesAs, Fits, Slots, Header, Padded;
    if es == [] {
      assert bytes == pre + tail;
      ParsesNone(pre, tail, roots, limits, w, bytes);
    } else {
      var e, post := es[0], PrintAll(es[1..]) + tail;
      assert bytes == pre + PrintEntry(e) + post;
      PrintedSlices(pre, e, post);
      PaddedIs(|e.content|);
      MemberPrinted(bytes, e, roots, limits, w);
      var next := Member(bytes, roots, limits, w);
      if next.Ok? {
        assert bytes == (pre + PrintEntry(e)) + PrintAll(es[1..]) + tail;
        NextAt(next, Collect(roots, limits, Gathered(w), e), w.offset + BLOCK + Padded(|e.content|));
        ParsePrinted(pre + PrintEntry(e), es[1..], tail, roots, limits, next.value, bytes);
      }
      ParsesOne(bytes, e, es[1..], roots, limits, w, Complete(tail));
      assert [e] + es[1..] == es;
    }
  }

  lemma NextAt(next: Result<Walk, AcquisitionError>, c: Result<Collected, AcquisitionError>, offset: nat)
    requires Matches(next, c, offset) && next.Ok?
    ensures next.value.offset == offset && next.value.zeroBlocks == 0
  {
  }

  lemma ParsesNone(pre: Bytes, tail: Bytes, roots: seq<Bytes>, limits: Limits, w: Walk, bytes: Bytes)
    requires bytes == pre + tail && |bytes| % BLOCK == 0 && Ending(tail)
    requires w.offset == |pre| && |pre| % BLOCK == 0 && w.zeroBlocks == 0
    ensures ParsesAs(bytes, roots, limits, w, [], Complete(tail))
  {
    hide Ending, Complete, ParseFrom;
    ParseEnd(pre, tail, roots, limits, w);
  }

  const Nothing := Collected([], {}, 0)

  /**
   Parsing printed members and whatever follows them is collecting the entries and sorting, with the same error when
   there is one; but without two zero blocks, or with anything but zeros behind the first of them, it is refused.
   */
  lemma TarEnds(es: seq<Entry>, tail: Bytes, roots: seq<Bytes>, limits: Limits)
    requires forall i :: 0 <= i < |es| ==> Slots(es[i]) && Fits(es[i])
    requires Ending(tail) && |PrintAll(es) + tail| <= ISIZE_MAX
    ensures Parse(PrintAll(es) + tail, roots, limits)
         == match CollectFrom(roots, limits, Nothing, es)
            case Err(e) => Err(e)
            case Ok(c) => if Complete(tail) then Ok(SortFiles(c.files)) else Err(UnsupportedArchive)
  {
    hide ParseFrom, Fits, Slots, Ending, Complete, PrintAll, SortFiles, CollectFrom, Parse;
    if PrintAll(es) + tail == [] {
      NothingParses(es, tail, roots, limits);
    } else {
      PrintedParses(es, tail, roots, limits);
    }
  }

  lemma PrintedParses(es: seq<Entry>, tail: Bytes, roots: seq<Bytes>, limits: Limits)
    requires forall i :: 0 <= i < |es| ==> Slots(es[i]) && Fits(es[i])
    requires Ending(tail) && PrintAll(es) + tail != [] && |PrintAll(es) + tail| <= ISIZE_MAX
    ensures Parse(PrintAll(es) + tail, roots, limits)
         == match CollectFrom(roots, limits, Nothing, es)
            case Err(e) => Err(e)
            case Ok(c) => if Complete(tail) then Ok(SortFiles(c.files)) else Err(UnsupportedArchive)
  {
    hide ParseFrom, Fits, Slots, Complete, PrintAll, SortFiles, CollectFrom, ParsesAs;
    var bytes, none: Bytes := PrintAll(es) + tail, [];
    PrintAllAligned(es);
    AlignedSum(|PrintAll(es)|, |tail|);
    assert none + PrintAll(es) + tail == bytes;
    ParsePrinted(none, es, tail, roots, limits, Begin, bytes);
    WholeParse(bytes, es, roots, limits, Complete(tail));
  }

  lemma AlignedSum(a: nat, b: nat)
    requires a % BLOCK == 0 && b % BLOCK == 0
    ensures (a + b) % BLOCK == 0
  {
  }

  lemma WholeParse(bytes: Bytes, es: seq<Entry>, roots: seq<Bytes>, limits: Limits, complete: bool)
    requires bytes != [] && |bytes| % BLOCK == 0 && ParsesAs(bytes, roots, limits, Begin, es, complete)
    ensures Parse(bytes, roots, limits)
         == match CollectFrom(roots, limits, Nothing, es)
            case Err(e) => Err(e)
            case Ok(c) => if complete then Ok(SortFiles(c.files)) else Err(UnsupportedArchive)
  {
    hide ParseFrom, CollectFrom, SortFiles;
    assert |bytes| >= BLOCK && Gathered(Begin) == Nothing;
  }

  lemma NothingParses(es: seq<Entry>, tail: Bytes, roots: seq<Bytes>, limits: Limits)
    requires (forall i :: 0 <= i < |es| ==> Slots(es[i])) && PrintAll(es) + tail == []
    ensures Parse(PrintAll(es) + tail, roots, limits) == Err(UnsupportedArchive)
    ensures CollectFrom(roots, limits, Nothing, es) == Ok(Nothing) && !Complete(tail)
  {
    PrintedLength(es);
  }

  lemma PrintedLength(es: seq<Entry>)
    requires forall i :: 0 <= i < |es| ==> Slots(es[i])
    ensures es != [] ==> |PrintAll(es)| >= BLOCK
  {
  }

  lemma ZerosComplete()
    ensures Ending(Zeros(2 * BLOCK)) && Complete(Zeros(2 * BLOCK))
  {
  }

  /** Parsing a printed archive is collecting its entries and sorting, with the same error when there is one. */
  lemma TarRoundTrip(es: seq<Entry>, roots: seq<Bytes>, limits: Limits)
    requires forall i :: 0 <= i < |es| ==> Slots(es[i]) && Fits(es[i])
    requires |Archive(es)| <= ISIZE_MAX
    ensures Parse(Archive(es), roots, limits)
         == match CollectFrom(roots, limits, Nothing, es)
            case Err(e) => Err(e)
            case Ok(c) => Ok(SortFiles(c.files))
  {
    hide Parse, Fits, Slots, Zeros, PrintAll, CollectFrom, SortFiles, Ending, Complete;
    ZerosComplete();
    TarEnds(es, Zeros(2 * BLOCK), roots, limits);
  }

  // ---------------------------------------------------------------- when it succeeds

  /** The selected regular files, in archive order. */
  function FilesOf(roots: seq<Bytes>, es: seq<Entry>): seq<File> {
    if es == [] then []
    else if Regular(es[0]) && Selected(PathOf(es[0]), roots) then [FileOf(es[0])] + FilesOf(roots, es[1..])
    else FilesOf(roots, es[1..])
  }

  /** Every entry is acceptable and no two paths, old or new, fold to the same key. */
  ghost predicate EntriesOk(limits: Limits, seen: set<Bytes>, es: seq<Entry>) {
    && (forall i :: 0 <= i < |es| ==> EntryOk(limits, es[i]) && Lower(PathOf(es[i])) !in seen)
    && (forall i, j :: 0 <= i < j < |es| ==> Lower(PathOf(es[i])) != Lower(PathOf(es[j])))
  }

  ghost predicate QuotaOk(limits: Limits, count: nat, total: nat, files: seq<File>) {
    && count + |files| <= limits.maxFiles
    && total + TotalSize(files) <= limits.maxTotalBytes
    && (forall f :: f in files ==> |f.bytes| <= limits.maxFileBytes)
  }

  /** What the limits and the policy ask of a list of entries that follows `c`. */
  ghost predicate Admissible(roots: seq<Bytes>, limits: Limits, c: Collected, es: seq<Entry>) {
    EntriesOk(limits, c.seen, es) && QuotaOk(limits, |c.files|, c.total, FilesOf(roots, es))
  }

  predicate EntryOk(limits: Limits, e: Entry) {
    PathOk(PathOf(e), limits.maxPathBytes) && (Regular(e) || (e.kind == 53 && e.content == []))
  }

  lemma CollectOne(roots: seq<Bytes>, limits: Limits, c: Collected, e: Entry)
    requires limits.maxTotalBytes <= U64_MAX && |c.files| <= limits.maxFiles && c.total <= limits.maxTotalBytes
    ensures Collect(roots, limits, c, e).Ok? <==> Admissible(roots, limits, c, [e])
    ensures Collect(roots, limits, c, e).Ok? ==>
      var c1 := Collect(roots, limits, c, e).value;
      && c1.files == c.files + FilesOf(roots, [e]) && c1.seen == c.seen + {Lower(PathOf(e))}
      && c1.total == c.total + TotalSize(FilesOf(roots, [e]))
  {
    assert [e][1..] == [] && FilesOf(roots, []) == [];
    assert [FileOf(e)][..0] == [] && TotalSize([FileOf(e)]) == |e.content|;
    var files := FilesOf(roots, [e]);
    assert files == if Regular(e) && Selected(PathOf(e), roots) then [FileOf(e)] else [];
    assert files != [] ==> FileOf(e) in files;
  }

  /** Collecting succeeds exactly on admissible lists, and then yields exactly the selected regular files. */
  lemma {:induction false} CollectExactly(roots: seq<Bytes>, limits: Limits, c: Collected, es: seq<Entry>)
    requires limits.maxTotalBytes <= U64_MAX && |c.files| <= limits.maxFiles && c.total <= limits.maxTotalBytes
    ensures CollectFrom(roots, limits, c, es).Ok? <==> Admissible(roots, limits, c, es)
    ensures CollectFrom(roots, limits, c, es).Ok? ==>
      CollectFrom(roots, limits, c, es).value.files == c.files + FilesOf(roots, es)
    decreases |es|
  {
    hide Collect, FilesOf, EntriesOk, QuotaOk;
    if es == [] {
      CollectNone(roots, limits, c);
    } else {
      CollectOne(roots, limits, c, es[0]);
      FilesSplit(roots, es);
      EntriesSplit(limits, c.seen, es);
      QuotaSplit(limits, |c.files|, c.total, FilesOf(roots, [es[0]]), FilesOf(roots, es[1..]));
      var first := Collect(roots, limits, c, es[0]);
      if first.Ok? {
        assert QuotaOk(limits, |c.files|, c.total, FilesOf(roots, [es[0]]));
        QuotaBounds(limits, |c.files|, c.total, FilesOf(roots, [es[0]]));
        CollectExactly(roots, limits, first.value, es[1..]);
        assert c.files + FilesOf(roots, es) == (c.files + FilesOf(roots, [es[0]])) + FilesOf(roots, es[1..]);
      }
    }
  }

  lemma CollectNone(roots: seq<Bytes>, limits: Limits, c: Collected)
    requires |c.files| <= limits.maxFiles && c.total <= limits.maxTotalBytes
    ensures Admissible(roots, limits, c, []) && c.files + FilesOf(roots, []) == c.files
  {
  }

  lemma QuotaBounds(limits: Limits, count: nat, total: nat, files: seq<File>)
    requires QuotaOk(limits, count, total, files)
    ensures count + |files| <= limits.maxFiles && total + TotalSize(files) <= limits.maxTotalBytes
  {
  }

  lemma FilesSplit(roots: seq<Bytes>, es: seq<Entry>)
    requires es != []
    ensures FilesOf(roots, es) == FilesOf(roots, [es[0]]) + FilesOf(roots, es[1..])
  {
    hide Selected, PathOf, FileOf;
    assert [es[0]][1..] == [];
    assert FilesOf(roots, []) == [];
    assert FilesOf(roots, [es[0]]) == if Regular(es[0]) && Selected(PathOf(es[0]), roots) then [FileOf(es[0])] else [];
  }

  lemma TotalConcat(a: seq<File>, b: seq<File>)
    ensures TotalSize(a + b) == TotalSize(a) + TotalSize(b)
  {
    if b == [] {
      assert a + b == a;
    } else {
      assert (a + b)[..|a + b| - 1] == a + b[..|b| - 1];
      TotalConcat(a, b[..|b| - 1]);
    }
  }

  lemma EntriesSplit(limits: Limits, seen: set<Bytes>, es: seq<Entry>)
    requires es != []
    ensures EntriesOk(limits, seen, es)
      <==> EntriesOk(limits, seen, [es[0]]) && EntriesOk(limits, seen + {Lower(PathOf(es[0]))}, es[1..])
  {
    hide EntryOk, Lower, PathOf;
    var rest := es[1..];
    assert forall i :: 1 <= i < |es| ==> es[i] == rest[i - 1];
    assert [es[0]][0] == es[0];
    if EntriesOk(limits, seen, [es[0]]) && EntriesOk(limits, seen + {Lower(PathOf(es[0]))}, rest) {
      forall i | 0 <= i < |es|
        ensures EntryOk(limits, es[i]) && Lower(PathOf(es[i])) !in seen
      {
        if i > 0 { assert es[i] == rest[i - 1]; }
      }
      forall i, j | 0 <= i < j < |es|
        ensures Lower(PathOf(es[i])) != Lower(PathOf(es[j]))
      {
        assert es[j] == rest[j - 1];
        if i > 0 { assert es[i] == rest[i - 1]; }
      }
    }
    if EntriesOk(limits, seen, es) {
      forall i | 0 <= i < |rest|
        ensures EntryOk(limits, rest[i]) && Lower(PathOf(rest[i])) !in seen + {Lower(PathOf(es[0]))}
      {
        assert rest[i] == es[i + 1];
      }
    }
  }

  lemma QuotaSplit(limits: Limits, count: nat, total: nat, a: seq<File>, b: seq<File>)
    ensures QuotaOk(limits, count, total, a + b)
      <==> QuotaOk(limits, count, total, a) && QuotaOk(limits, count + |a|, total + TotalSize(a), b)
  {
    hide TotalSize;
    TotalConcat(a, b);
  }

  /**
   The round trip in one statement: an archive of fitting entries parses exactly when the entries are admissible, and
   then to exactly the selected regular files, sorted, with their bytes and executable bits.
   */
  lemma TarParsesExactly(es: seq<Entry>, roots: seq<Bytes>, limits: Limits)
    requires forall i :: 0 <= i < |es| ==> Slots(es[i]) && Fits(es[i])
    requires |Archive(es)| <= ISIZE_MAX && limits.maxTotalBytes <= U64_MAX
    ensures Parse(Archive(es), roots, limits).Ok? <==> Admissible(roots, limits, Nothing, es)
    ensures Admissible(roots, limits, Nothing, es) ==>
      Parse(Archive(es), roots, limits) == Ok(SortFiles(FilesOf(roots, es)))
  {
    TarRoundTrip(es, roots, limits);
    CollectExactly(roots, limits, Nothing, es);
    assert [] + FilesOf(roots, es) == FilesOf(roots, es);
  }
}
