/**
 The strict ustar reader. `ParseTar` is the loop of the source; `ParseFrom` is its specification, one recursive
 call per block. Machine arithmetic is explicit: every `checked_add` of the source is a comparison with the
 64-bit maximum, and the unchecked additions are shown to fit.
 */
module Tar {
  import opened Prelude
  import opened FileOrder
  import opened PathPolicy
  import opened Octal

  const BLOCK: nat := 512
  const USIZE_MAX: nat := 0xFFFF_FFFF_FFFF_FFFF
  /** No slice is longer than isize::MAX. */
  const ISIZE_MAX: nat := 0x7FFF_FFFF_FFFF_FFFF

  predicate AllZero(b: Bytes) { forall i :: 0 <= i < |b| ==> b[i] == 0 }

  function Sum(b: Bytes): nat { if b == [] then 0 else Sum(b[..|b| - 1]) + b[|b| - 1] }

  /** The byte sum with the checksum field read as spaces. */
  function Checksum(header: Bytes): nat
    requires |header| == BLOCK
  {
    Sum(header[..148]) + 8 * SPACE + Sum(header[156..])
  }

  function UntilNul(field: Bytes): (text: Bytes)
    ensures |text| <= |field|
  {
    if field == [] || field[0] == 0 then [] else [field[0]] + UntilNul(field[1..])
  }

  /**
   tar_text. The source checks UTF-8 here and ASCII in normalize_path; both refuse with the same error and nothing
   between them can fail differently, so ASCII is checked here.
   */
  function TarText(field: Bytes): Result<Bytes, AcquisitionError> {
    var text := UntilNul(field);
    if (exists i :: 0 <= i < |text| && IsControl(text[i])) || !IsAscii(text) then Err(UnsafePath) else Ok(text)
  }

  const MAGIC_POSIX: Bytes := Ascii("ustar") + [0]
  const MAGIC_GNU: Bytes := Ascii("ustar ")

  /** name, or prefix/name, without one trailing slash. */
  function RawPath(prefix: Bytes, name: Bytes): Bytes {
    var raw := if prefix == [] then name else prefix + [SLASH] + name;
    if raw != [] && raw[|raw| - 1] == SLASH then raw[..|raw| - 1] else raw
  }

  /** What the header says about the member's path. */
  function HeaderPath(header: Bytes, limits: Limits): (r: Result<Bytes, AcquisitionError>)
    requires |header| == BLOCK
    ensures r.Ok? ==> PathOk(r.value, limits.maxPathBytes)
  {
    match ParseOctal(header[148..156])
    case Err(e) => Err(e)
    case Ok(expected) =>
      if expected != Checksum(header) then Err(ArchiveChecksumMismatch)
      else if header[257..263] != MAGIC_POSIX && header[257..263] != MAGIC_GNU then Err(UnsupportedArchive)
      else
        match TarText(header[..100])
        case Err(e) => Err(e)
        case Ok(name) =>
          if name == [] then Err(UnsafePath)
          else
            match TarText(header[345..500])
            case Err(e) => Err(e)
            case Ok(prefix) =>
              var raw := RawPath(prefix, name);
              if PathOk(raw, limits.maxPathBytes) then Ok(raw) else Err(UnsafePath)
  }

  function Padded(size: nat): (padded: nat)
    ensures padded % 512 == 0 && size <= padded < size + 512
  {
    (size + 511) / 512 * 512
  }

  /** Where the header after a member of this size starts. */
  function NextHeader(offset: nat, size: nat): (next: nat)
    ensures next == offset + BLOCK + Padded(size) && (offset % BLOCK == 0 ==> next % BLOCK == 0)
  {
    offset + BLOCK + Padded(size)
  }

  /** The member's size, if its padded content lies inside the archive. */
  function MemberSize(header: Bytes, offset: nat, length: nat): (r: Result<nat, AcquisitionError>)
    requires |header| == BLOCK
    ensures r.Ok? ==> offset + r.value <= offset + Padded(r.value) <= length
  {
    match ParseOctal(header[124..136])
    case Err(e) => Err(e)
    case Ok(size) =>
      if size + (BLOCK - 1) > USIZE_MAX || offset + Padded(size) > USIZE_MAX || offset + size > USIZE_MAX then
        Err(ArchiveBytesExceeded)
      else if offset + Padded(size) > length || offset + size > length then Err(UnsupportedArchive)
      else Ok(size)
  }

  /** The loop variables, and where each kept file's content lies. */
  datatype Walk = Walk(offset: nat, zeroBlocks: nat, files: seq<File>, seen: set<Bytes>, total: nat,
    regions: seq<Region>)
  datatype Region = Region(start: nat, end: nat)

  const Begin := Walk(0, 0, [], {}, 0, [])

  /** `mode & 0o111 != 0` */
  predicate AnyExecute(mode: nat) { mode % 2 == 1 || (mode / 8) % 2 == 1 || (mode / 64) % 2 == 1 }

  /** One member, header at `w.offset`. */
  function Member(bytes: Bytes, roots: seq<Bytes>, limits: Limits, w: Walk): (r: Result<Walk, AcquisitionError>)
    requires w.offset + BLOCK <= |bytes|
    ensures r.Ok? ==> w.offset + BLOCK <= r.value.offset <= |bytes| && r.value.zeroBlocks == w.zeroBlocks
    ensures r.Ok? && w.offset % BLOCK == 0 ==> r.value.offset % BLOCK == 0
  {
    var header := bytes[w.offset..w.offset + BLOCK];
    var start := w.offset + BLOCK;
    match HeaderPath(header, limits)
    case Err(e) => Err(e)
    case Ok(path) =>
      if Lower(path) in w.seen then Err(PathCollision)
      else
        var seen := w.seen + {Lower(path)};
        match MemberSize(header, start, |bytes|)
        case Err(e) => Err(e)
        case Ok(size) =>
          var next := w.(offset := NextHeader(w.offset, size), seen := seen);
          var kind := header[156];
          if kind == 53 then
            if size != 0 then Err(UnsupportedArchive) else Ok(next)
          else if kind == 0 || kind == 48 then
            if !Selected(path, roots) then Ok(next)
            else
              match AddQuota(|w.files|, w.total, size, limits)
              case Err(e) => Err(e)
              case Ok(total) =>
                match ParseOctal(header[100..108])
                case Err(e) => Err(e)
                case Ok(mode) =>
                  Ok(next.(files := w.files + [File(path, bytes[start..start + size], AnyExecute(mode))],
                           total := total, regions := w.regions + [Region(start, start + size)]))
          else Err(UnsupportedFileType)
  }

  /** The rest of the walk, and the files in archive order. */
  function ParseFrom(bytes: Bytes, roots: seq<Bytes>, limits: Limits, w: Walk): Result<Walk, AcquisitionError>
    requires w.offset <= |bytes| && |bytes| % BLOCK == 0 && w.offset % BLOCK == 0
    decreases |bytes| - w.offset
  {
    if w.offset == |bytes| then Err(UnsupportedArchive)
    else
      var header := bytes[w.offset..w.offset + BLOCK];
      if AllZero(header) then
        if w.zeroBlocks == 1 then
          if AllZero(bytes[w.offset + BLOCK..]) then Ok(w) else Err(UnsupportedArchive)
        else ParseFrom(bytes, roots, limits, w.(offset := w.offset + BLOCK, zeroBlocks := 1))
      else if w.zeroBlocks != 0 then Err(UnsupportedArchive)
      else
        match Member(bytes, roots, limits, w)
        case Err(e) => Err(e)
        case Ok(w') => ParseFrom(bytes, roots, limits, w')
  }

  function Parse(bytes: Bytes, roots: seq<Bytes>, limits: Limits): Result<seq<File>, AcquisitionError> {
    if |bytes| < BLOCK || |bytes| % BLOCK != 0 then Err(UnsupportedArchive)
    else
      match ParseFrom(bytes, roots, limits, Begin)
      case Err(e) => Err(e)
      case Ok(w) => Ok(SortFiles(w.files))
  }

  method VerifyChecksum(header: Bytes) returns (r: Result<(), AcquisitionError>)
    requires |header| == BLOCK
    ensures r == match ParseOctal(header[148..156])
                 case Err(e) => Err(e)
                 case Ok(v) => if v == Checksum(header) then Ok(()) else Err(ArchiveChecksumMismatch)
  {
    var expected := ParseOctal(header[148..156]);
    if expected.Err? {
      return Err(expected.error);
    }
    var actual := 0;
    var index := 0;
    while index < BLOCK
      invariant 0 <= index <= BLOCK
      invariant index <= 148 ==> actual == Sum(header[..index])
      invariant 148 <= index <= 156 ==> actual == Sum(header[..148]) + (index - 148) * SPACE
      invariant 156 <= index ==> actual == Sum(header[..148]) + 8 * SPACE + Sum(header[156..index])
      invariant actual <= index * 255
    {
      if index < 148 {
        assert header[..index + 1][..index] == header[..index];
      } else if index >= 156 {
        assert header[156..index + 1][..index - 156] == header[156..index];
      }
      actual := actual + if 148 <= index < 156 then SPACE else header[index];
      index := index + 1;
    }
    assert header[156..BLOCK] == header[156..];
    return if expected.value != actual then Err(ArchiveChecksumMismatch) else Ok(());
  }

  method ParseTar(bytes: Bytes, roots: seq<Bytes>, limits: Limits) returns (r: Result<seq<File>, AcquisitionError>)
    requires |bytes| <= ISIZE_MAX
    ensures r == Parse(bytes, roots, limits)
  {
    if |bytes| < BLOCK || |bytes| % BLOCK != 0 {
      return Err(UnsupportedArchive);
    }
    var w := Begin;
    ghost var whole := ParseFrom(bytes, roots, limits, Begin);
    hide Member;
    while w.offset < |bytes| && w.zeroBlocks < 2
      invariant w.offset <= |bytes| && w.offset % BLOCK == 0 && w.zeroBlocks <= 2
      invariant w.zeroBlocks < 2 ==> ParseFrom(bytes, roots, limits, w) == whole
      invariant w.zeroBlocks == 2 ==> whole.Ok? && whole.value.files == w.files
      decreases |bytes| - w.offset
    {
      assert w.offset + BLOCK <= USIZE_MAX && w.zeroBlocks + 1 <= 255;
      var header := bytes[w.offset..w.offset + BLOCK];
      if AllZero(header) {
        w := w.(offset := w.offset + BLOCK, zeroBlocks := w.zeroBlocks + 1);
        if w.zeroBlocks == 2 && !AllZero(bytes[w.offset..]) {
          return Err(UnsupportedArchive);
        }
      } else {
        if w.zeroBlocks != 0 {
          return Err(UnsupportedArchive);
        }
        var next := ReadMember(bytes, roots, limits, w);
        if next.Err? {
          return Err(next.error);
        }
        w := next.value;
      }
    }
    if w.zeroBlocks < 2 {
      return Err(UnsupportedArchive);
    }
    return Ok(SortFiles(w.files));
  }

  /** The body of the loop for a block that is not zero. */
  method ReadMember(bytes: Bytes, roots: seq<Bytes>, limits: Limits, w: Walk)
    returns (r: Result<Walk, AcquisitionError>)
    requires w.offset + BLOCK <= |bytes|
    ensures r == Member(bytes, roots, limits, w)
  {
    hide HeaderPath, MemberSize, AddQuota;
    var header := bytes[w.offset..w.offset + BLOCK];
    var offset := w.offset + BLOCK;
    var path := ReadPath(header, limits);
    if path.Err? {
      return Err(path.error);
    }
    if Lower(path.value) in w.seen {
      return Err(PathCollision);
    }
    var seen := w.seen + {Lower(path.value)};
    var size := MemberSize(header, offset, |bytes|);
    if size.Err? {
      return Err(size.error);
    }
    var end := offset + Padded(size.value);
    var files, total, regions := w.files, w.total, w.regions;
    if header[156] == 53 {
      if size.value != 0 {
        return Err(UnsupportedArchive);
      }
    } else if header[156] == 0 || header[156] == 48 {
      if Selected(path.value, roots) {
        var quota := AddQuota(|files|, total, size.value, limits);
        if quota.Err? {
          return Err(quota.error);
        }
        total := quota.value;
        var mode := ParseOctal(header[100..108]);
        if mode.Err? {
          return Err(mode.error);
        }
        files := files + [File(path.value, bytes[offset..offset + size.value], AnyExecute(mode.value))];
        regions := regions + [Region(offset, offset + size.value)];
      }
    } else {
      return Err(UnsupportedFileType);
    }
    return Ok(Walk(end, w.zeroBlocks, files, seen, total, regions));
  }

  method ReadPath(header: Bytes, limits: Limits) returns (r: Result<Bytes, AcquisitionError>)
    requires |header| == BLOCK
    ensures r == HeaderPath(header, limits)
  {
    var checked := VerifyChecksum(header);
    if checked.Err? {
      return Err(checked.error);
    }
    if header[257..263] != MAGIC_POSIX && header[257..263] != MAGIC_GNU {
      return Err(UnsupportedArchive);
    }
    var name := TarText(header[..100]);
    if name.Err? {
      return Err(name.error);
    }
    if name.value == [] {
      return Err(UnsafePath);
    }
    var prefix := TarText(header[345..500]);
    if prefix.Err? {
      return Err(prefix.error);
    }
    r := NormalizePath(RawPath(prefix.value, name.value), limits.maxPathBytes);
  }
}
