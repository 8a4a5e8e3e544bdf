/**
 The archive writer the tests use, with the prefix, the mode and the variant of the magic as parameters. `PrintTar`
 fills header buffers in place; `Archive` is what it produces.
 */
module TarPrinter {
  import opened Prelude
  import opened FileOrder
  import opened PathPolicy
  import opened Octal
  import opened Tar

  datatype Entry = Entry(prefix: Bytes, name: Bytes, mode: nat, kind: byte, content: Bytes, gnu: bool)

  /** "ustar" and a NUL, or a space in archives of the GNU variant. */
  function Magic(gnu: bool): (magic: Bytes)
    ensures |magic| == 6 && magic == if gnu then MAGIC_GNU else MAGIC_POSIX
  {
    [117, 115, 116, 97, 114, if gnu then 32 else 0]
  }

  predicate Slots(e: Entry) { |e.name| <= 100 && |e.prefix| <= 155 }

  /** The fields fit their header slots, and a NUL does not cut them short. */
  ghost predicate Fits(e: Entry) {
    && Slots(e) && e.name != [] && 0 !in e.name && 0 !in e.prefix
    && e.mode < Pow8(7) && |e.content| < Pow8(11)
  }

  function Zeros(n: nat): (z: Bytes)
    ensures |z| == n && AllZero(z)
  {
    seq(n, _ => 0)
  }

  function Field(text: Bytes, width: nat): (f: Bytes)
    requires |text| <= width
    ensures |f| == width
  {
    text + Zeros(width - |text|)
  }

  function Number(value: nat, width: nat): (f: Bytes)
    requires width > 0
    ensures |f| == width
  {
    OctalDigits(value, width - 1) + [0]
  }

  /** Bytes 0 to 147: name, mode, uid, gid, size, mtime. */
  function Left(e: Entry): (b: Bytes)
    requires |e.name| <= 100
    ensures |b| == 148
  {
    Field(e.name, 100) + Number(e.mode, 8) + Number(0, 8) + Number(0, 8) + Number(|e.content|, 12) + Number(0, 12)
  }

  /** Bytes 156 to 511: kind, link name, magic and version, owner and device fields, prefix, padding. */
  function Right(e: Entry): (b: Bytes)
    requires |e.prefix| <= 155
    ensures |b| == 356
  {
    ([e.kind] + Zeros(100)) + (Magic(e.gnu) + [ZERO, ZERO]) + Zeros(80) + (Field(e.prefix, 155) + Zeros(12))
  }

  function ChecksumField(value: nat): (f: Bytes)
    ensures |f| == 8
  {
    OctalDigits(value, 6) + [0, SPACE]
  }

  function HeaderSum(e: Entry): nat
    requires Slots(e)
  {
    Sum(Left(e)) + 8 * SPACE + Sum(Right(e))
  }

  function Header(e: Entry): (b: Bytes)
    requires Slots(e)
    ensures |b| == BLOCK
  {
    Left(e) + ChecksumField(HeaderSum(e)) + Right(e)
  }

  function Padding(size: nat): (padding: nat)
    ensures (size + padding) % 512 == 0 && padding < 512
  {
    (512 - size % 512) % 512
  }

  function PrintEntry(e: Entry): Bytes
    requires Slots(e)
  {
    Header(e) + e.content + Zeros(Padding(|e.content|))
  }

  function PrintAll(es: seq<Entry>): Bytes
    requires forall i :: 0 <= i < |es| ==> Slots(es[i])
  {
    if es == [] then [] else PrintEntry(es[0]) + PrintAll(es[1..])
  }

  function Archive(es: seq<Entry>): Bytes
    requires forall i :: 0 <= i < |es| ==> Slots(es[i])
  {
    PrintAll(es) + Zeros(2 * BLOCK)
  }

  // ---------------------------------------------------------------- sums

  lemma {:induction false} SumConcat(a: Bytes, b: Bytes)
    ensures Sum(a + b) == Sum(a) + Sum(b)
  {
    var c := a + b;
    if b == [] {
      assert c == a;
    } else {
      assert c[..|c| - 1] == a + b[..|b| - 1];
      SumConcat(a, b[..|b| - 1]);
    }
  }

  lemma {:induction false} SumBound(b: Bytes)
    ensures Sum(b) <= 255 * |b|
  {
    if b != [] {
      SumBound(b[..|b| - 1]);
    }
  }

  /** The checksum always fits its six digits. */
  lemma HeaderSumFits(e: Entry)
    requires Slots(e)
    ensures HeaderSum(e) < Pow8(6)
  {
    SumBound(Left(e));
    SumBound(Right(e));
    assert Pow8(6) == 262144 by {
      assert Pow8(1) == 8 && Pow8(2) == 64 && Pow8(3) == 512 && Pow8(4) == 4096 && Pow8(5) == 32768;
    }
  }

  lemma HeaderChecksum(e: Entry)
    requires Slots(e)
    ensures Checksum(Header(e)) == HeaderSum(e)
    ensures ParseOctal(Header(e)[148..156]) == Ok(HeaderSum(e))
  {
    var h, c := Header(e), ChecksumField(HeaderSum(e));
    assert h[..148] == Left(e) && h[156..] == Right(e) && h[148..156] == c;
    HeaderSumFits(e);
    assert c == OctalDigits(HeaderSum(e), 6) + [0, SPACE];
    ParseWritten(HeaderSum(e), 6, [0, SPACE]);
  }

  // ---------------------------------------------------------------- the writer

  /** format!("{value:o}") */
  function OctalText(value: nat): Bytes {
    if value < 8 then [ZERO + value] else OctalText(value / 8) + [ZERO + value % 8]
  }

  /** Leading zeros make the minimal text the fixed-width one. */
  lemma {:induction false} TextIsDigits(value: nat, n: nat)
    requires n > 0 && value < Pow8(n)
    ensures |OctalText(value)| <= n
    ensures forall i :: 0 <= i < n ==>
      OctalDigits(value, n)[i] == if i < n - |OctalText(value)| then ZERO
        else OctalText(value)[i - (n - |OctalText(value)|)]
  {
    if n > 1 {
      if value >= 8 {
        TextIsDigits(value / 8, n - 1);
      } else {
        TextIsDigits(0, n - 1);
      }
    }
  }

  method WriteOctal(header: array<byte>, lo: nat, hi: nat, value: nat)
    requires lo + 1 < hi <= header.Length && value < Pow8(hi - lo - 1)
    modifies header
    ensures header[lo..hi] == Number(value, hi - lo)
    ensures header[..lo] == old(header[..lo]) && header[hi..] == old(header[hi..])
  {
    var n := hi - lo - 1;
    var text := OctalText(value);
    TextIsDigits(value, n);
    var start := hi - |text| - 1;
    var i := lo;
    while i < hi - 1
      invariant lo <= i <= hi - 1
      invariant forall k :: lo <= k < i ==> header[k] == OctalDigits(value, n)[k - lo]
      invariant header[..lo] == old(header[..lo]) && header[hi..] == old(header[hi..])
    {
      header[i] := if i < start then ZERO else text[i - start];
      i := i + 1;
    }
    header[hi - 1] := 0;
    assert header[lo..hi] == OctalDigits(value, n) + [0];
  }

  method CopyInto(header: array<byte>, lo: nat, text: Bytes)
    requires lo + |text| <= header.Length
    modifies header
    ensures header[lo..lo + |text|] == text
    ensures header[..lo] == old(header[..lo]) && header[lo + |text|..] == old(header[lo + |text|..])
  {
    var i := 0;
    while i < |text|
      invariant 0 <= i <= |text|
      invariant forall k :: 0 <= k < i ==> header[lo + k] == text[k]
      invariant header[..lo] == old(header[..lo]) && header[lo + |text|..] == old(header[lo + |text|..])
    {
      header[lo + i] := text[i];
      i := i + 1;
    }
  }

  /** The buffer holds `b`, then zeros. */
  ghost predicate Built(header: array<byte>, b: Bytes)
    reads header
  {
    |b| <= header.Length == BLOCK && header[..|b|] == b && header[|b|..] == Zeros(BLOCK - |b|)
  }

  /** Writing `text` behind `b` into a blank buffer leaves a field of any width it fits. */
  lemma Splice(before: Bytes, after: Bytes, b: Bytes, text: Bytes, width: nat)
    requires |before| == |after| == BLOCK && |b| + width <= BLOCK && |text| <= width
    requires before[|b|..] == Zeros(BLOCK - |b|) && after[..|b|] == b && after[|b|..|b| + |text|] == text
    requires after[|b| + |text|..] == before[|b| + |text|..]
    ensures after[..|b| + width] == b + Field(text, width) && after[|b| + width..] == Zeros(BLOCK - |b| - width)
  {
    var lo, hi := |b|, |b| + |text|;
    forall k | hi <= k < BLOCK
      ensures after[k] == 0
    {
      assert after[k] == after[hi..][k - hi] == before[hi..][k - hi] == before[k];
      assert before[k] == before[lo..][k - lo] == Zeros(BLOCK - lo)[k - lo];
    }
    forall k | 0 <= k < lo + width
      ensures after[k] == (b + Field(text, width))[k]
    {
      if k < lo {
        assert after[k] == after[..lo][k];
      } else if k < hi {
        assert after[k] == after[lo..hi][k - lo];
      }
    }
  }

  method PutText(header: array<byte>, ghost b: Bytes, lo: nat, text: Bytes, width: nat)
    requires Built(header, b) && |b| == lo && lo + width <= BLOCK && |text| <= width
    modifies header
    ensures Built(header, b + Field(text, width))
  {
    hide Field;
    ghost var before := header[..];
    CopyInto(header, lo, text);
    Splice(before, header[..], b, text, width);
  }

  method PutNumber(header: array<byte>, ghost b: Bytes, lo: nat, value: nat, width: nat)
    requires Built(header, b) && |b| == lo && 1 < width && lo + width <= BLOCK && value < Pow8(width - 1)
    modifies header
    ensures Built(header, b + Number(value, width))
  {
    hide Number;
    ghost var before := header[..];
    WriteOctal(header, lo, lo + width, value);
    assert Field(Number(value, width), width) == Number(value, width);
    hide Field;
    Splice(before, header[..], b, Number(value, width), width);
  }

  method WriteChecksum(header: array<byte>, value: nat)
    requires header.Length == BLOCK && value < Pow8(6)
    modifies header
    ensures header[148..156] == ChecksumField(value)
    ensures header[..148] == old(header[..148]) && header[156..] == old(header[156..])
  {
    var text := OctalDigits(value, 6);  // format!("{value:06o}")
    CopyInto(header, 148, text);
    ghost var filled := header[..];
    header[154], header[155] := 0, SPACE;
    assert header[148..154] == filled[148..154] == text;
    assert header[148..156] == header[148..154] + [0, SPACE];
    assert header[..148] == filled[..148];
    assert header[156..] == filled[154..][2..];
  }

  method SumOf(header: array<byte>) returns (sum: nat)
    ensures sum == Sum(header[..])
  {
    sum := 0;
    var i := 0;
    while i < header.Length
      invariant 0 <= i <= header.Length && sum == Sum(header[..i])
    {
      assert header[..i + 1][..i] == header[..i];
      sum := sum + header[i];
      i := i + 1;
    }
    assert header[..i] == header[..];
  }

  lemma {:induction false} Pow8Positive(n: nat)
    ensures Pow8(n) > 0
  {
    if n > 0 {
      Pow8Positive(n - 1);
    }
  }

  /** The fields before the checksum. */
  method PrintLeft(header: array<byte>, e: Entry)
    requires Fits(e) && Built(header, [])
    modifies header
    ensures Built(header, Left(e))
  {
    hide Built, Field, Number, Pow8;
    Pow8Positive(7);
    Pow8Positive(11);
    PutText(header, [], 0, e.name, 100);
    ghost var b := Field(e.name, 100);
    assert [] + b == b;
    PutNumber(header, b, 100, e.mode, 8);
    b := b + Number(e.mode, 8);
    PutNumber(header, b, 108, 0, 8);
    b := b + Number(0, 8);
    PutNumber(header, b, 116, 0, 8);
    b := b + Number(0, 8);
    PutNumber(header, b, 124, |e.content|, 12);
    b := b + Number(|e.content|, 12);
    PutNumber(header, b, 136, 0, 12);
  }

  /** A blank checksum field, and the fields after it. */
  method PrintRight(header: array<byte>, e: Entry, spaces: Bytes)
    requires Fits(e) && |spaces| == 8 && Built(header, Left(e))
    modifies header
    ensures Built(header, Left(e) + spaces + Right(e))
  {
    hide Built, Left, Right;
    ghost var b := Left(e);
    PutText(header, b, 148, spaces, 8);
    b := b + Field(spaces, 8);
    PutText(header, b, 156, [e.kind], 101);
    b := b + Field([e.kind], 101);
    PutText(header, b, 257, Magic(e.gnu), 6);
    b := b + Field(Magic(e.gnu), 6);
    PutText(header, b, 263, [ZERO, ZERO], 82);
    b := b + Field([ZERO, ZERO], 82);
    PutText(header, b, 345, e.prefix, 167);
    HeaderParts(e, spaces);
  }

  method PrintHeader(e: Entry) returns (block: Bytes)
    requires Fits(e)
    ensures block == Header(e)
  {
    hide Left, Right, Field, Number, Pow8;
    var header := new byte[BLOCK](_ => 0);
    assert header[..0] == [] && header[0..] == Zeros(BLOCK);
    PrintLeft(header, e);
    var spaces: Bytes := seq(8, _ => SPACE);
    PrintRight(header, e, spaces);
    FinishHeader(header, e, spaces);
    block := header[..];
  }

  lemma HeaderParts(e: Entry, spaces: Bytes)
    requires Slots(e) && |spaces| == 8
    ensures Left(e) + Field(spaces, 8) + Field([e.kind], 101) + Field(Magic(e.gnu), 6) + Field([ZERO, ZERO], 82)
            + Field(e.prefix, 167)
         == Left(e) + spaces + Right(e)
  {
    assert Field(spaces, 8) == spaces && Field(Magic(e.gnu), 6) == Magic(e.gnu);
    assert Field([e.kind], 101) == [e.kind] + Zeros(100);
    assert Field([ZERO, ZERO], 82) == [ZERO, ZERO] + Zeros(80);
    assert Field(e.prefix, 167) == Field(e.prefix, 155) + Zeros(12);
  }

  /** Sum with the checksum field still blank, then fill it in. */
  method FinishHeader(header: array<byte>, e: Entry, ghost spaces: Bytes)
    requires Slots(e) && spaces == seq(8, _ => SPACE)
    requires header.Length == BLOCK && Built(header, Left(e) + spaces + Right(e))
    modifies header
    ensures header[..] == Header(e)
  {
    hide Left, Right, ChecksumField, Pow8;
    assert header[..] == Left(e) + spaces + Right(e);
    var checksum := SumOf(header);
    SumConcat(Left(e) + spaces, Right(e));
    SumConcat(Left(e), spaces);
    assert Sum(spaces) == 8 * SPACE by { SumSpaces(spaces); }
    HeaderSumFits(e);
    WriteChecksum(header, checksum);
    assert header[..148] == Left(e) && header[156..] == Right(e);
    assert header[..] == header[..148] + header[148..156] + header[156..];
  }

  lemma SumSpaces(spaces: Bytes)
    requires spaces == seq(8, _ => SPACE)
    ensures Sum(spaces) == 8 * SPACE
  {
    SumConcat(spaces[..4], spaces[4..]);
    assert spaces == spaces[..4] + spaces[4..];
    assert spaces[..4] == [SPACE, SPACE, SPACE, SPACE] == spaces[4..];
    SumFour();
  }

  lemma SumFour()
    ensures Sum([SPACE, SPACE, SPACE, SPACE]) == 4 * SPACE
  {
    assert [SPACE][..0] == [] && Sum([SPACE]) == SPACE;
    assert [SPACE, SPACE][..1] == [SPACE] && Sum([SPACE, SPACE]) == 2 * SPACE;
    assert [SPACE, SPACE, SPACE][..2] == [SPACE, SPACE] && Sum([SPACE, SPACE, SPACE]) == 3 * SPACE;
    assert [SPACE, SPACE, SPACE, SPACE][..3] == [SPACE, SPACE, SPACE];
  }

  method PrintTar(entries: seq<Entry>) returns (archive: Bytes)
    requires forall i :: 0 <= i < |entries| ==> Slots(entries[i]) && Fits(entries[i])
    ensures archive == Archive(entries)
  {
    hide Header, Fits, Slots, Zeros, Padding;
    archive := [];
    var i := 0;
    while i < |entries|
      invariant 0 <= i <= |entries|
      invariant archive + PrintAll(entries[i..]) == PrintAll(entries)
    {
      var e := entries[i];
      var block := PrintHeader(e);
      assert entries[i..][0] == e && entries[i..][1..] == entries[i + 1..];
      assert archive + (PrintEntry(e) + PrintAll(entries[i + 1..]))
        == archive + PrintEntry(e) + PrintAll(entries[i + 1..]);
      archive := archive + (block + e.content + Zeros(Padding(|e.content|)));
      i := i + 1;
    }
    assert entries[i..] == [] && archive + [] == archive;
    archive := archive + Zeros(2 * BLOCK);
  }
}
