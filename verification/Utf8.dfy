/** UTF-8 as an incremental decoder sees it: the characters a byte sequence starts with, and what is left over. */
module Utf8 {
  import opened Prelude

  predicate Continues(b: byte) { 0x80 <= b <= 0xBF }

  /** The second byte of a three- or four-byte character: no overlong forms, no surrogates, nothing above U+10FFFF. */
  predicate Second(lead: byte, b: byte) {
    && (if lead == 0xE0 then 0xA0 else if lead == 0xF0 then 0x90 else 0x80) <= b
    && b <= (if lead == 0xED then 0x9F else if lead == 0xF4 then 0x8F else 0xBF)
  }

  /** How many bytes the first character takes; 0 if there is no complete, valid one. */
  function CharLength(b: Bytes): (n: nat)
    ensures n <= |b|
  {
    if b == [] then 0
    else if b[0] < 0x80 then 1
    else if 0xC2 <= b[0] <= 0xDF then (if |b| >= 2 && Continues(b[1]) then 2 else 0)
    else if 0xE0 <= b[0] <= 0xEF then (if |b| >= 3 && Second(b[0], b[1]) && Continues(b[2]) then 3 else 0)
    else if 0xF0 <= b[0] <= 0xF4 then
      (if |b| >= 4 && Second(b[0], b[1]) && Continues(b[2]) && Continues(b[3]) then 4 else 0)
    else 0
  }

  /** The complete, valid characters at the front. */
  function Decoded(b: Bytes): (d: Bytes)
    ensures |d| <= |b| && d == b[..|d|]
  {
    var n := CharLength(b);
    if n == 0 then [] else b[..n] + Decoded(b[n..])
  }

  predicate Valid(b: Bytes) { Decoded(b) == b }

  /** Bytes that a later read can complete to a character. */
  predicate Unfinished(rest: Bytes) {
    || rest == []
    || (0xC2 <= rest[0] <= 0xDF && |rest| == 1)
    || (0xE0 <= rest[0] <= 0xEF && |rest| <= 2 && (|rest| == 2 ==> Second(rest[0], rest[1])))
    || (0xF0 <= rest[0] <= 0xF4 && |rest| <= 3 && (|rest| >= 2 ==> Second(rest[0], rest[1]))
      && (|rest| == 3 ==> Continues(rest[2])))
  }

  /** The decoder takes these bytes without an error, expecting more. */
  predicate Decodes(b: Bytes) { Unfinished(b[|Decoded(b)|..]) }

  lemma {:induction false} AsciiIsValid(b: Bytes)
    requires forall i :: 0 <= i < |b| ==> b[i] < 0x80
    ensures Valid(b)
  {
    if b != [] {
      AsciiIsValid(b[1..]);
      assert b == b[..1] + b[1..];
    }
  }

  // ---------------------------------------------------------------- what the bytes encode

  /** A Unicode scalar value: any code point that is not a surrogate. */
  predicate Scalar(c: int) { 0 <= c < 0xD800 || 0xE000 <= c < 0x110000 }

  /** UTF-8, as section 3 of RFC 3629 lays it out: a lead byte, then six bits in each further byte. */
  function Encode(c: int): (b: Bytes)
    requires Scalar(c)
    ensures 1 <= |b| <= 4
  {
    if c < 0x80 then [c]
    else if c < 0x800 then [0xC0 + c / 64, 0x80 + c % 64]
    else if c < 0x10000 then [0xE0 + c / 4096, 0x80 + c / 64 % 64, 0x80 + c % 64]
    else [0xF0 + c / 262144, 0x80 + c / 4096 % 64, 0x80 + c / 64 % 64, 0x80 + c % 64]
  }

  function EncodeAll(text: seq<int>): Bytes
    requires forall i :: 0 <= i < |text| ==> Scalar(text[i])
  {
    if text == [] then [] else Encode(text[0]) + EncodeAll(text[1..])
  }

  /** The scalar that a lead byte and three groups of six bits stand for; unused groups are zero. */
  function Compose(lead: int, x: int, y: int, z: int): int { ((lead * 64 + x) * 64 + y) * 64 + z }

  lemma Digits64(lead: int, x: int, y: int, z: int)
    requires 0 <= x < 64 && 0 <= y < 64 && 0 <= z < 64 && 0 <= lead
    ensures var c := Compose(lead, x, y, z);
            c % 64 == z && c / 64 % 64 == y && c / 4096 % 64 == x && c / 262144 == lead
  {
    var a := lead * 64 + x;
    var b := a * 64 + y;
    var c := b * 64 + z;
    assert c / 64 == b && c % 64 == z;
    assert b / 64 == a && b % 64 == y;
    assert a / 64 == lead && a % 64 == x;
    assert c / 4096 == c / 64 / 64 && c / 262144 == c / 64 / 64 / 64;
  }

  /** A complete character encodes a scalar, in as many bytes. */
  lemma CharIsEncoded(b: Bytes) returns (c: int)
    requires CharLength(b) > 0
    ensures Scalar(c) && b[..CharLength(b)] == Encode(c)
  {
    if b[0] < 0x80 {
      c := b[0];
      assert b[..1] == [c];
    } else if b[0] <= 0xDF {
      c := Compose(0, 0, b[0] - 0xC0, b[1] - 0x80);
      Digits64(0, 0, b[0] - 0xC0, b[1] - 0x80);
      assert c / 64 == b[0] - 0xC0 && b[..2] == [b[0], b[1]];
    } else if b[0] <= 0xEF {
      c := ThreeBytes(b[0], b[1], b[2]);
      assert b[..3] == [b[0], b[1], b[2]];
    } else {
      c := FourBytes(b[0], b[1], b[2], b[3]);
      assert b[..4] == [b[0], b[1], b[2], b[3]];
    }
  }

  lemma ThreeBytes(lead: byte, x: byte, y: byte) returns (c: int)
    requires 0xE0 <= lead <= 0xEF && Second(lead, x) && Continues(y)
    ensures Scalar(c) && Encode(c) == [lead, x, y]
  {
    c := Compose(0, lead - 0xE0, x - 0x80, y - 0x80);
    Digits64(0, lead - 0xE0, x - 0x80, y - 0x80);
    assert c / 4096 == lead - 0xE0;
  }

  lemma FourBytes(lead: byte, x: byte, y: byte, z: byte) returns (c: int)
    requires 0xF0 <= lead <= 0xF4 && Second(lead, x) && Continues(y) && Continues(z)
    ensures Scalar(c) && Encode(c) == [lead, x, y, z]
  {
    c := Compose(lead - 0xF0, x - 0x80, y - 0x80, z - 0x80);
    Digits64(lead - 0xF0, x - 0x80, y - 0x80, z - 0x80);
  }

  /** And an encoded scalar is a complete character, whatever follows. */
  lemma EncodedIsChar(c: int, rest: Bytes)
    requires Scalar(c)
    ensures CharLength(Encode(c) + rest) == |Encode(c)|
  {
  }

  /** The decoder takes exactly the encodings of scalar values. */
  lemma {:induction false} ValidExactly(b: Bytes)
    ensures Valid(b) <==> exists text: seq<int> ::
      (forall i :: 0 <= i < |text| ==> Scalar(text[i])) && EncodeAll(text) == b
  {
    if Valid(b) {
      var text := Scalars(b);
    }
    if text: seq<int> :| (forall i :: 0 <= i < |text| ==> Scalar(text[i])) && EncodeAll(text) == b {
      EncodedIsValid(text);
    }
  }

  lemma {:induction false} Scalars(b: Bytes) returns (text: seq<int>)
    requires Valid(b)
    ensures (forall i :: 0 <= i < |text| ==> Scalar(text[i])) && EncodeAll(text) == b
  {
    if b == [] {
      text := [];
    } else {
      var n := CharLength(b);
      assert n > 0 && b == b[..n] + b[n..];
      assert Decoded(b[n..]) == b[n..] by { assert b[..n] + Decoded(b[n..]) == b; }
      hide CharLength, Encode;
      var c := CharIsEncoded(b);
      var rest := Scalars(b[n..]);
      text := [c] + rest;
      assert text[1..] == rest;
    }
  }

  lemma {:induction false} EncodedIsValid(text: seq<int>)
    requires forall i :: 0 <= i < |text| ==> Scalar(text[i])
    ensures Valid(EncodeAll(text))
  {
    if text != [] {
      var first, rest := Encode(text[0]), EncodeAll(text[1..]);
      EncodedIsChar(text[0], rest);
      EncodedIsValid(text[1..]);
      hide CharLength, Encode;
      assert (first + rest)[..|first|] == first && (first + rest)[|first|..] == rest;
    }
  }

  /** What the decoder keeps back is exactly a proper beginning of some encoded scalar. */
  lemma UnfinishedExactly(rest: Bytes)
    ensures Unfinished(rest)
       <==> exists c :: Scalar(c) && |rest| < |Encode(c)| && rest == Encode(c)[..|rest|]
  {
    if Unfinished(rest) {
      var c := Completion(rest);
    }
    if c :| Scalar(c) && |rest| < |Encode(c)| && rest == Encode(c)[..|rest|] {
      hide Encode, Unfinished;
      PartIsUnfinished(c, |rest|);
    }
  }

  lemma PartIsUnfinished(c: int, n: nat)
    requires Scalar(c) && n < |Encode(c)|
    ensures Unfinished(Encode(c)[..n])
  {
    var b := Encode(c);
    if n > 0 {
      assert b[..n][0] == b[0] && (n > 1 ==> b[..n][1] == b[1]) && (n > 2 ==> b[..n][2] == b[2]);
    }
  }

  lemma Completion(rest: Bytes) returns (c: int)
    requires Unfinished(rest)
    ensures Scalar(c) && |rest| < |Encode(c)| && rest == Encode(c)[..|rest|]
  {
    if rest == [] {
      c := 0;
    } else if rest[0] <= 0xDF {
      c := Compose(0, 0, rest[0] - 0xC0, 0);
      Digits64(0, 0, rest[0] - 0xC0, 0);
    } else {
      var second: byte := if |rest| > 1 then rest[1] else if rest[0] == 0xE0 then 0xA0 else if rest[0] == 0xF0 then 0x90
        else 0x80;
      var third: byte := if |rest| > 2 then rest[2] else 0x80;
      if rest[0] <= 0xEF {
        c := ThreeBytes(rest[0], second, 0x80);
      } else {
        c := FourBytes(rest[0], second, third, 0x80);
      }
      hide Encode;
      assert forall i :: 0 <= i < |rest| ==> rest[i] == Encode(c)[i];
    }
  }
}
