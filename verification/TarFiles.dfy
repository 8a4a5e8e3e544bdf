/**
 The round trip in terms of files and directories. A member is a path, a flag and its bytes; its path may be written
 in one field or split at any of its slashes, with or without a slash at its end, and its mode is any mode with the
 right execute bits. `FilesRoundTrip`: reading gives back exactly the selected files.
 */
module TarFiles {
  import opened Prelude
  import opened FileOrder
  import opened PathPolicy
  import opened Octal
  import opened Tar
  import opened TarBounds
  import opened TarPrinter
  import opened TarRoundTrip

  // ---------------------------------------------------------------- modes

  predicate OddDigit(d: byte) { d == 49 || d == 51 || d == 53 || d == 55 }  // '1', '3', '5', '7'

  /** A file is executable exactly if the digit of owner, group or others is odd, as the mode field spells it. */
  lemma ExecutableExactly(mode: nat)
    ensures var d := OctalDigits(mode, 7);
            AnyExecute(mode) <==> OddDigit(d[4]) || OddDigit(d[5]) || OddDigit(d[6])
  {
    LowDigits(mode);
    OddLast(mode);
    OddLast(mode / 8);
    OddLast(mode / 64);
    hide OctalDigits, OddDigit;
  }

  lemma OddLast(n: nat)
    ensures OddDigit(ZERO + n % 8) <==> n % 2 == 1
  {
    var d, k := n % 8, n / 8;
    assert n == 2 * (4 * k) + d;
    SameParity(4 * k, d);
    OddSmall(d);
  }

  lemma SameParity(m: nat, d: nat)
    ensures (2 * m + d) % 2 == d % 2
  {
  }

  lemma OddSmall(d: nat)
    requires d < 8
    ensures OddDigit(ZERO + d) <==> d % 2 == 1
  {
  }

  lemma LowDigits(mode: nat)
    ensures var d := OctalDigits(mode, 7);
            d[6] == ZERO + mode % 8 && d[5] == ZERO + mode / 8 % 8 && d[4] == ZERO + mode / 64 % 8
  {
    assert mode / 8 / 8 == mode / 64;
    assert OctalDigits(mode, 7) == OctalDigits(mode / 8, 6) + [ZERO + mode % 8];
    assert OctalDigits(mode / 8, 6) == OctalDigits(mode / 8 / 8, 5) + [ZERO + mode / 8 % 8];
    assert OctalDigits(mode / 64, 5) == OctalDigits(mode / 64 / 8, 4) + [ZERO + mode / 64 % 8];
  }

  // ---------------------------------------------------------------- members

  /** `cut` is where the path is split over the two fields, if at all; `slash` adds one at its end. */
  datatype Member =
    | Regular(file: File, mode: nat, cut: Option<nat>, slash: bool, gnu: bool)
    | Directory(path: Bytes, mode: nat, cut: Option<nat>, slash: bool, gnu: bool)
  {
    function Path(): Bytes { if Regular? then file.path else path }
  }

  /** The mode carries the flag, the cut is at a slash inside the path, and no field starts or ends the path oddly. */
  ghost predicate Writable(m: Member) {
    && m.Path() != [] && m.Path()[|m.Path()| - 1] != SLASH
    && (m.cut.Some? ==> 0 < m.cut.value < |m.Path()| - 1 && m.Path()[m.cut.value] == SLASH)
    && (m.Regular? ==> var d := OctalDigits(m.mode, 7);
                       m.file.executable <==> OddDigit(d[4]) || OddDigit(d[5]) || OddDigit(d[6]))
  }

  function Tail(m: Member): Bytes { if m.slash then [SLASH] else [] }

  function Pack(m: Member): Entry
    requires Writable(m)
  {
    Entry(if m.cut.Some? then m.Path()[..m.cut.value] else [],
          (if m.cut.Some? then m.Path()[m.cut.value + 1..] else m.Path()) + Tail(m),
          m.mode, if m.Regular? then 48 else 53, if m.Regular? then m.file.bytes else [], m.gnu)
  }

  function PackAll(ms: seq<Member>): (es: seq<Entry>)
    requires forall i :: 0 <= i < |ms| ==> Writable(ms[i])
    ensures |es| == |ms| && forall i :: 0 <= i < |ms| ==> es[i] == Pack(ms[i])
  {
    if ms == [] then [] else [Pack(ms[0])] + PackAll(ms[1..])
  }

  /** What the fields of the header say together is the path. */
  lemma PackedPath(m: Member)
    requires Writable(m)
    ensures PathOf(Pack(m)) == m.Path()
  {
    var path := m.Path();
    if m.cut.Some? {
      assert path == path[..m.cut.value] + [SLASH] + path[m.cut.value + 1..];
    }
    var e := Pack(m);
    var full := if e.prefix == [] then e.name else e.prefix + [SLASH] + e.name;
    assert full == path + Tail(m);
    if Tail(m) == [SLASH] {
      assert full[..|full| - 1] == path;
    }
  }

  lemma PackedFile(m: Member)
    requires Writable(m) && m.Regular?
    ensures FileOf(Pack(m)) == m.file
  {
    PackedPath(m);
    ExecutableExactly(m.mode);
  }

  /** The selected files, in archive order. */
  function SelectedFiles(roots: seq<Bytes>, ms: seq<Member>): seq<File> {
    if ms == [] then []
    else if ms[0].Regular? && Selected(ms[0].Path(), roots) then [ms[0].file] + SelectedFiles(roots, ms[1..])
    else SelectedFiles(roots, ms[1..])
  }

  lemma {:induction false} PackedFiles(roots: seq<Bytes>, ms: seq<Member>)
    requires forall i :: 0 <= i < |ms| ==> Writable(ms[i])
    ensures FilesOf(roots, PackAll(ms)) == SelectedFiles(roots, ms)
  {
    if ms != [] {
      var es := PackAll(ms);
      assert es[1..] == PackAll(ms[1..]);
      PackedPath(ms[0]);
      if ms[0].Regular? {
        PackedFile(ms[0]);
      }
      PackedFiles(roots, ms[1..]);
    }
  }

  /** What the policy and the limits ask of the members: accepted paths, distinct up to case, and the three quotas. */
  ghost predicate Acceptable(roots: seq<Bytes>, limits: Limits, ms: seq<Member>) {
    && (forall i :: 0 <= i < |ms| ==> PathOk(ms[i].Path(), limits.maxPathBytes))
    && (forall i, j :: 0 <= i < j < |ms| ==> Lower(ms[i].Path()) != Lower(ms[j].Path()))
    && Fitting(limits, SelectedFiles(roots, ms))
  }

  ghost predicate Fitting(limits: Limits, files: seq<File>) {
    && |files| <= limits.maxFiles && TotalSize(files) <= limits.maxTotalBytes
    && forall f :: f in files ==> |f.bytes| <= limits.maxFileBytes
  }

  lemma PackedOk(limits: Limits, m: Member)
    requires Writable(m)
    ensures EntryOk(limits, Pack(m)) <==> PathOk(m.Path(), limits.maxPathBytes)
  {
    hide PathOk;
    PackedPath(m);
  }

  lemma SameTests(roots: seq<Bytes>, limits: Limits, ms: seq<Member>, es: seq<Entry>)
    requires |es| == |ms| && FilesOf(roots, es) == SelectedFiles(roots, ms)
    requires forall i :: 0 <= i < |ms| ==> PathOf(es[i]) == ms[i].Path()
    requires forall i :: 0 <= i < |ms| ==> (EntryOk(limits, es[i]) <==> PathOk(ms[i].Path(), limits.maxPathBytes))
    ensures Acceptable(roots, limits, ms) <==> Admissible(roots, limits, Nothing, es)
  {
    hide PathOk, Lower, PathOf, TotalSize, EntryOk, FilesOf, SelectedFiles, Member.Path;
  }

  lemma AcceptableIs(roots: seq<Bytes>, limits: Limits, ms: seq<Member>)
    requires forall i :: 0 <= i < |ms| ==> Writable(ms[i])
    ensures Acceptable(roots, limits, ms) <==> Admissible(roots, limits, Nothing, PackAll(ms))
  {
    hide PathOk, PathOf, Writable, EntryOk, Pack, PackAll, FilesOf, SelectedFiles, Acceptable, Admissible;
    var es := PackAll(ms);
    PackedFiles(roots, ms);
    forall i | 0 <= i < |ms|
      ensures PathOf(es[i]) == ms[i].Path() && (EntryOk(limits, es[i]) <==> PathOk(ms[i].Path(), limits.maxPathBytes))
    {
      PackedPath(ms[i]);
      PackedOk(limits, ms[i]);
    }
    SameTests(roots, limits, ms, es);
  }

  /**
   An archive of such members is read exactly if the members are acceptable, and then gives back exactly the selected
   files in path order, each with its path, its bytes and its flag.
   */
  lemma FilesRoundTrip(ms: seq<Member>, roots: seq<Bytes>, limits: Limits)
    requires forall i :: 0 <= i < |ms| ==> Writable(ms[i]) && Slots(Pack(ms[i])) && Fits(Pack(ms[i]))
    requires |Archive(PackAll(ms))| <= ISIZE_MAX && limits.maxTotalBytes <= U64_MAX
    ensures Parse(Archive(PackAll(ms)), roots, limits).Ok? <==> Acceptable(roots, limits, ms)
    ensures Acceptable(roots, limits, ms) ==>
      Parse(Archive(PackAll(ms)), roots, limits) == Ok(SortFiles(SelectedFiles(roots, ms)))
  {
    hide Writable, Fits, Slots, Archive, Parse, Acceptable, Admissible;
    AcceptableIs(roots, limits, ms);
    PackedFiles(roots, ms);
    TarParsesExactly(PackAll(ms), roots, limits);
  }
}
