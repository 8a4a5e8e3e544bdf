/** tree_digest: the byte stream fed to the hasher determines the file list. */
module TreeDigest {
  import opened Prelude
  import opened FileOrder
  import opened PathPolicy
  import opened Bundle

  /** SHA-256 with its 32-byte output. */
  ghost predicate HashWidth(hash: Bytes -> Bytes, files: seq<File>) {
    forall i :: 0 <= i < |files| ==> |hash(files[i].bytes)| == 32
  }

  /** u64::to_be_bytes, for any width. */
  function BigEndian(n: nat, width: nat): (b: Bytes)
    ensures |b| == width
  {
    if width == 0 then [] else BigEndian(n / 256, width - 1) + [n % 256]
  }

  function Pow256(n: nat): nat { if n == 0 then 1 else 256 * Pow256(n - 1) }

  lemma {:induction false} BigEndianInjective(m: nat, n: nat, width: nat)
    requires m < Pow256(width) && n < Pow256(width) && BigEndian(m, width) == BigEndian(n, width)
    ensures m == n
  {
    if width > 0 {
      var a, b := BigEndian(m, width), BigEndian(n, width);
      assert a[width - 1] == m % 256 && b[width - 1] == n % 256;
      assert a[..width - 1] == BigEndian(m / 256, width - 1) && b[..width - 1] == BigEndian(n / 256, width - 1);
      BigEndianInjective(m / 256, n / 256, width - 1);
    }
  }

  function Encode(hash: Bytes -> Bytes, f: File): Bytes {
    BigEndian(|f.path|, 8) + f.path + [if f.executable then 1 else 0] + BigEndian(|f.bytes|, 8) + hash(f.bytes)
  }

  function Stream(hash: Bytes -> Bytes, files: seq<File>): Bytes {
    if files == [] then [] else Encode(hash, files[0]) + Stream(hash, files[1..])
  }

  function Digest(hash: Bytes -> Bytes, files: seq<File>): Bytes {
    Ascii("sha256:") + Hex(hash(Stream(hash, files)))
  }

  /** The five hasher updates of one file. */
  method Update(hash: Bytes -> Bytes, fed: Bytes, f: File) returns (fed': Bytes)
    ensures fed' == fed + Encode(hash, f)
  {
    hide BigEndian;
    var path, flag, size, content :=
      BigEndian(|f.path|, 8), [if f.executable then 1 else 0], BigEndian(|f.bytes|, 8), hash(f.bytes);
    fed' := fed + path;
    fed' := fed' + f.path;
    fed' := fed' + flag;
    fed' := fed' + size;
    fed' := fed' + content;
    assert fed' == fed + (path + f.path + flag + size + content);
  }

  method TreeDigest(hash: Bytes -> Bytes, files: seq<File>) returns (digest: Bytes)
    ensures digest == Digest(hash, files)
  {
    hide Encode;
    var fed: Bytes := [];
    var i := 0;
    while i < |files|
      invariant 0 <= i <= |files|
      invariant fed + Stream(hash, files[i..]) == Stream(hash, files)
    {
      var f := files[i];
      assert files[i..][0] == f && files[i..][1..] == files[i + 1..];
      ghost var before := fed;
      fed := Update(hash, fed, f);
      assert before + (Encode(hash, f) + Stream(hash, files[i + 1..])) == fed + Stream(hash, files[i + 1..]);
      i := i + 1;
    }
    assert files[i..] == [] && fed + [] == fed;
    var output := ToHex(hash(fed));
    return Ascii("sha256:") + output;
  }

  /** Lengths fit the 64-bit prefixes. */
  ghost predicate LengthsFit(files: seq<File>) {
    forall i :: 0 <= i < |files| ==> |files[i].path| < Pow256(8) && |files[i].bytes| < Pow256(8)
  }

  /** The two files agree on everything the stream carries. */
  ghost predicate SameRecord(hash: Bytes -> Bytes, f: File, g: File) {
    f.path == g.path && f.executable == g.executable && |f.bytes| == |g.bytes| && hash(f.bytes) == hash(g.bytes)
  }

  /** A record is self-delimiting: equal streams start with equal records. */
  lemma FirstRecord(hash: Bytes -> Bytes, f: File, g: File, s: Bytes, t: Bytes)
    requires Encode(hash, f) + s == Encode(hash, g) + t
    requires |hash(f.bytes)| == 32 && |hash(g.bytes)| == 32
    requires |f.path| < Pow256(8) && |g.path| < Pow256(8) && |f.bytes| < Pow256(8) && |g.bytes| < Pow256(8)
    ensures SameRecord(hash, f, g) && s == t
  {
    hide BigEndian, Pow256;
    var a, b := Encode(hash, f) + s, Encode(hash, g) + t;
    assert a[..8] == BigEndian(|f.path|, 8) && b[..8] == BigEndian(|g.path|, 8);
    BigEndianInjective(|f.path|, |g.path|, 8);
    var n := 8 + |f.path|;
    assert a[8..n] == f.path && b[8..n] == g.path;
    assert a[n] == (if f.executable then 1 else 0) && b[n] == if g.executable then 1 else 0;
    assert a[n + 1..n + 9] == BigEndian(|f.bytes|, 8) && b[n + 1..n + 9] == BigEndian(|g.bytes|, 8);
    BigEndianInjective(|f.bytes|, |g.bytes|, 8);
    assert a[n + 9..n + 41] == hash(f.bytes) && b[n + 9..n + 41] == hash(g.bytes);
    assert a[n + 41..] == s && b[n + 41..] == t;
  }

  /** Unique decodability: equal streams mean equal record lists. */
  lemma {:induction false} StreamDetermines(hash: Bytes -> Bytes, a: seq<File>, b: seq<File>)
    requires Stream(hash, a) == Stream(hash, b)
    requires HashWidth(hash, a) && HashWidth(hash, b) && LengthsFit(a) && LengthsFit(b)
    ensures |a| == |b| && forall i :: 0 <= i < |a| ==> SameRecord(hash, a[i], b[i])
  {
    hide Pow256;
    if a != [] && b != [] {
      FirstRecord(hash, a[0], b[0], Stream(hash, a[1..]), Stream(hash, b[1..]));
      hide Encode, SameRecord;
      StreamDetermines(hash, a[1..], b[1..]);
      forall i | 0 <= i < |a|
        ensures SameRecord(hash, a[i], b[i])
      {
        if i > 0 {
          assert a[i] == a[1..][i - 1] && b[i] == b[1..][i - 1];
        }
      }
    }
  }

  // ---------------------------------------------------------------- reading the stream

  /** What the stream tells of a file. */
  datatype Record = Record(path: Bytes, executable: bool, size: nat, contentHash: Bytes)

  function ToRecord(hash: Bytes -> Bytes, f: File): Record { Record(f.path, f.executable, |f.bytes|, hash(f.bytes)) }

  /** A big-endian number: every byte is worth 256 times the next. */
  function FromBigEndian(b: Bytes): nat {
    if b == [] then 0 else FromBigEndian(b[..|b| - 1]) * 256 + b[|b| - 1]
  }

  lemma {:induction false} BigEndianRoundTrip(n: nat, width: nat)
    requires n < Pow256(width)
    ensures FromBigEndian(BigEndian(n, width)) == n
  {
    if width > 0 {
      var b := BigEndian(n, width);
      assert b[..width - 1] == BigEndian(n / 256, width - 1) && b[width - 1] == n % 256;
      BigEndianRoundTrip(n / 256, width - 1);
    }
  }

  /** An independent reader: length and path, a flag that is 0 or 1, length and hash of the content; and again. */
  function ReadStream(b: Bytes): Option<seq<Record>>
    decreases |b|
  {
    if b == [] then Some([])
    else if |b| < 8 then None
    else
      var n := 8 + FromBigEndian(b[..8]);
      if |b| < n + 41 || b[n] > 1 then None
      else
        match ReadStream(b[n + 41..])
        case None => None
        case Some(rest) =>
          Some([Record(b[8..n], b[n] == 1, FromBigEndian(b[n + 1..n + 9]), b[n + 9..n + 41])] + rest)
  }

  lemma ReadFirst(hash: Bytes -> Bytes, f: File, s: Bytes)
    requires |hash(f.bytes)| == 32 && |f.path| < Pow256(8) && |f.bytes| < Pow256(8)
    ensures ReadStream(Encode(hash, f) + s)
         == match ReadStream(s) case None => None case Some(rest) => Some([ToRecord(hash, f)] + rest)
  {
    hide BigEndian, Pow256, FromBigEndian;
    BigEndianRoundTrip(|f.path|, 8);
    BigEndianRoundTrip(|f.bytes|, 8);
    var b, n := Encode(hash, f) + s, 8 + |f.path|;
    assert b[..8] == BigEndian(|f.path|, 8) && b[8..n] == f.path && b[n] == if f.executable then 1 else 0;
    assert b[n + 1..n + 9] == BigEndian(|f.bytes|, 8) && b[n + 9..n + 41] == hash(f.bytes) && b[n + 41..] == s;
  }

  /** The hashed stream reads back as the records of the files, in order. */
  lemma {:induction false} StreamReadsBack(hash: Bytes -> Bytes, files: seq<File>)
    requires HashWidth(hash, files) && LengthsFit(files)
    ensures ReadStream(Stream(hash, files))
            == Some(seq(|files|, i requires 0 <= i < |files| => ToRecord(hash, files[i])))
  {
    hide Pow256, Encode, ReadStream;
    if files == [] {
      assert ReadStream([]) == Some([]) by { ReadNothing(); }
    } else {
      StreamReadsBack(hash, files[1..]);
      ReadFirst(hash, files[0], Stream(hash, files[1..]));
      var rest := seq(|files| - 1, i requires 0 <= i < |files| - 1 => ToRecord(hash, files[1..][i]));
      assert [ToRecord(hash, files[0])] + rest
          == seq(|files|, i requires 0 <= i < |files| => ToRecord(hash, files[i]));
    }
  }

  lemma ReadNothing()
    ensures ReadStream([]) == Some([])
  {
  }

  /** Two different inputs with the same hash, among the inputs tree_digest hashed. */
  ghost predicate Collision(hash: Bytes -> Bytes, a: seq<File>, b: seq<File>) {
    || (Stream(hash, a) != Stream(hash, b) && hash(Stream(hash, a)) == hash(Stream(hash, b)))
    || exists i :: 0 <= i < |a| && i < |b| && a[i].bytes != b[i].bytes && hash(a[i].bytes) == hash(b[i].bytes)
  }

  /** Equal digests mean equal trees, unless the hash itself collided on what was hashed. */
  lemma DigestDetermines(hash: Bytes -> Bytes, a: seq<File>, b: seq<File>)
    requires Digest(hash, a) == Digest(hash, b)
    requires HashWidth(hash, a) && HashWidth(hash, b) && LengthsFit(a) && LengthsFit(b)
    ensures a == b || Collision(hash, a, b)
  {
    var x, y := hash(Stream(hash, a)), hash(Stream(hash, b));
    assert Digest(hash, a)[7..] == Hex(x) && Digest(hash, b)[7..] == Hex(y);
    HexRoundTrip(x);
    HexRoundTrip(y);
    if !Collision(hash, a, b) {
      StreamDetermines(hash, a, b);
      forall i | 0 <= i < |a|
        ensures a[i] == b[i]
      {
        assert SameRecord(hash, a[i], b[i]);
      }
    }
  }
}
