/**
 What a header must be, whoever wrote it. `HeaderExactly`: the path of a header is accepted if and only if the checksum
 is right, the magic is one of two, and the name and prefix fields spell an accepted path. `CorruptHeader`: a printed
 header with one byte changed, outside the checksum field, is always refused.
 */
module TarHeader {
  import opened Prelude
  import opened PathPolicy
  import opened Octal
  import opened Tar
  import opened TarPrinter
  import opened TarRoundTrip

  // ---------------------------------------------------------------- sums

  /** The header with eight spaces in place of its checksum. */
  function Blanked(header: Bytes): (b: Bytes)
    requires |header| == 512
    ensures |b| == 512
  {
    header[..148] + [32, 32, 32, 32, 32, 32, 32, 32] + header[156..]
  }

  lemma ChecksumIs(header: Bytes)
    requires |header| == 512
    ensures Checksum(header) == Sum(Blanked(header))
  {
    var spaces: Bytes := seq(8, _ => SPACE);
    assert spaces == [32, 32, 32, 32, 32, 32, 32, 32];
    SumSpaces(spaces);
    SumConcat(header[..148] + spaces, header[156..]);
    SumConcat(header[..148], spaces);
  }

  lemma {:induction false} SumUpdate(b: Bytes, i: nat, x: byte)
    requires i < |b|
    ensures Sum(b[i := x]) == Sum(b) - b[i] + x
  {
    var n := |b| - 1;
    if i == n {
      assert b[i := x][..n] == b[..n];
    } else {
      assert b[i := x][..n] == b[..n][i := x];
      SumUpdate(b[..n], i, x);
    }
  }

  // ---------------------------------------------------------------- text fields

  /** The field from `i` to `j` spells `text`: up to its first NUL, or to its end. */
  ghost predicate Spells(header: Bytes, i: nat, j: nat, text: Bytes) {
    && i + |text| <= j <= |header| && header[i..i + |text|] == text && 0 !in text
    && (i + |text| == j || header[i + |text|] == 0)
  }

  lemma {:induction false} UntilNulSpells(field: Bytes)
    ensures Spells(field, 0, |field|, UntilNul(field))
  {
    if field != [] && field[0] != 0 {
      UntilNulSpells(field[1..]);
      var rest, text := UntilNul(field[1..]), UntilNul(field);
      assert text == [field[0]] + rest && field[..|text|] == [field[0]] + field[1..][..|rest|];
      assert |text| < |field| ==> field[|text|] == field[1..][|rest|];
    }
  }

  lemma {:induction false} SpellsOnce(field: Bytes, text: Bytes)
    requires Spells(field, 0, |field|, text)
    ensures UntilNul(field) == text
  {
    if text != [] {
      assert field[0] == text[0] && text[0] in text;
      assert field[1..][..|text| - 1] == field[..|text|][1..] == text[1..];
      SpellsOnce(field[1..], text[1..]);
      assert text == [text[0]] + text[1..];
    }
  }

  lemma FieldSpells(header: Bytes, i: nat, j: nat, text: Bytes)
    requires i <= j <= |header|
    ensures Spells(header, i, j, text) <==> UntilNul(header[i..j]) == text
  {
    var field := header[i..j];
    UntilNulSpells(field);
    if |text| <= |field| {
      assert field[..|text|] == header[i..i + |text|];
      assert |text| < |field| ==> field[|text|] == header[i + |text|];
    }
    if Spells(header, i, j, text) {
      SpellsOnce(field, text);
    }
  }

  // ---------------------------------------------------------------- headers

  ghost predicate Ustar(header: Bytes)
    requires |header| == 512
  {
    header[257..262] == [117, 115, 116, 97, 114] && (header[262] == 0 || header[262] == 32)
  }

  lemma MagicIs(header: Bytes)
    requires |header| == 512
    ensures header[257..263] == MAGIC_POSIX || header[257..263] == MAGIC_GNU <==> Ustar(header)
  {
    var magic := header[257..263];
    assert magic[..5] == header[257..262] && magic[5] == header[262];
    assert magic == magic[..5] + [magic[5]];
    assert Magic(true) == [117, 115, 116, 97, 114] + [32] == MAGIC_GNU;
    assert Magic(false) == [117, 115, 116, 97, 114] + [0] == MAGIC_POSIX;
  }

  /** Prefix and name, with a slash in between if there is a prefix, and perhaps one more at the end. */
  ghost predicate Names(prefix: Bytes, name: Bytes, path: Bytes) {
    var full := if prefix == [] then name else prefix + [47] + name;
    full == path || full == path + [47]
  }

  lemma NamesExactly(prefix: Bytes, name: Bytes, path: Bytes, maxPathBytes: nat)
    requires PathOk(path, maxPathBytes)
    ensures Names(prefix, name, path) <==> RawPath(prefix, name) == path
  {
    EndsInName(path, maxPathBytes);
    var full := if prefix == [] then name else prefix + [SLASH] + name;
    if full == path + [47] {
      assert full[..|full| - 1] == path;
    }
    if RawPath(prefix, name) == path && full != path {
      assert full == full[..|full| - 1] + [full[|full| - 1]];
    }
  }

  /** The two fields of the header spell this path. */
  ghost predicate SpellsPath(header: Bytes, path: Bytes) {
    exists prefix, name ::
      Spells(header, 0, 100, name) && Spells(header, 345, 500, prefix) && name != [] && Names(prefix, name, path)
  }

  /** The path of a header is accepted exactly if its checksum, magic and fields are right. */
  lemma HeaderExactly(header: Bytes, limits: Limits, path: Bytes)
    requires |header| == 512
    ensures HeaderPath(header, limits) == Ok(path)
       <==> && ParseOctal(header[148..156]) == Ok(Sum(Blanked(header))) && Ustar(header)
            && SpellsPath(header, path) && PathOk(path, limits.maxPathBytes)
  {
    hide ParseOctal, Checksum, Sum, Blanked, PathOk, Ustar, SpellsPath, TarText, RawPath;
    ChecksumIs(header);
    MagicIs(header);
    if PathOk(path, limits.maxPathBytes) {
      PathSpelled(header, path, limits.maxPathBytes);
    }
  }

  lemma PathSpelled(header: Bytes, path: Bytes, maxPathBytes: nat)
    requires |header| == 512 && PathOk(path, maxPathBytes)
    ensures SpellsPath(header, path)
       <==> && TarText(header[..100]).Ok? && TarText(header[345..500]).Ok? && TarText(header[..100]).value != []
            && RawPath(TarText(header[345..500]).value, TarText(header[..100]).value) == path
  {
    hide PathOk, RawPath, Names, Spells, UntilNul;
    var name, prefix := UntilNul(header[0..100]), UntilNul(header[345..500]);
    assert header[0..100] == header[..100];
    FieldSpells(header, 0, 100, name);
    FieldSpells(header, 345, 500, prefix);
    NamesExactly(prefix, name, path, maxPathBytes);
    if p, n :| Spells(header, 0, 100, n) && Spells(header, 345, 500, p) && n != [] && Names(p, n, path) {
      FieldSpells(header, 0, 100, n);
      FieldSpells(header, 345, 500, p);
    }
    if RawPath(prefix, name) == path {
      OkPathBytes(path, maxPathBytes);
      CleanParts(prefix, name);
      CleanIsText(header[..100], name);
      CleanIsText(header[345..500], prefix);
    }
  }

  lemma CleanIsText(field: Bytes, text: Bytes)
    requires UntilNul(field) == text && CleanBytes(text)
    ensures TarText(field) == Ok(text)
  {
    hide UntilNul;
  }

  /** One changed byte outside the checksum field is always noticed. */
  lemma CorruptHeader(e: Entry, i: nat, x: byte, limits: Limits)
    requires Fits(e) && i < 512 && !(148 <= i < 156) && x != Header(e)[i]
    ensures HeaderPath(Header(e)[i := x], limits) == Err(ArchiveChecksumMismatch)
  {
    HeaderChecksum(e);
    hide Header, Sum, Blanked, ParseOctal, Checksum, HeaderSum, Fits;
    var h := Header(e);
    var h' := h[i := x];
    assert h'[148..156] == h[148..156];
    ChecksumIs(h);
    ChecksumIs(h');
    BlankedUpdate(h, i, x);
    SumUpdate(Blanked(h), i, x);
  }

  lemma BlankedUpdate(h: Bytes, i: nat, x: byte)
    requires |h| == 512 && i < 512 && !(148 <= i < 156)
    ensures Blanked(h[i := x]) == Blanked(h)[i := x] && Blanked(h)[i] == h[i]
  {
    if i < 148 {
      assert h[i := x][..148] == h[..148][i := x] && h[i := x][156..] == h[156..];
    } else {
      assert h[i := x][..148] == h[..148] && h[i := x][156..] == h[156..][i - 156 := x];
    }
  }
}
