/** The numeric fields of a ustar header: the tolerant reader and the fixed-width writer. */
module Octal {
  import opened Prelude
  import opened PathPolicy

  const ZERO: byte := 48
  const SPACE: byte := 32

  predicate IsBlank(b: byte) { b == SPACE || b == 0 }

  /** skip_while(space or NUL) */
  function SkipBlank(f: Bytes): Bytes {
    if f != [] && IsBlank(f[0]) then SkipBlank(f[1..]) else f
  }

  /** take_while(not space and not NUL) */
  function TakeToken(f: Bytes): Bytes {
    if f == [] || IsBlank(f[0]) then [] else [f[0]] + TakeToken(f[1..])
  }

  /** try_fold with checked arithmetic on u64. */
  function FoldOctal(value: nat, digits: Bytes): (r: Result<nat, AcquisitionError>)
    ensures value <= U64_MAX && r.Ok? ==> r.value <= U64_MAX
    decreases |digits|
  {
    if digits == [] then Ok(value)
    else if !(ZERO <= digits[0] <= ZERO + 7) then Err(UnsupportedArchive)
    else if value * 8 > U64_MAX || value * 8 + (digits[0] - ZERO) > U64_MAX then Err(UnsupportedArchive)
    else FoldOctal(value * 8 + (digits[0] - ZERO), digits[1..])
  }

  function ParseOctal(field: Bytes): (r: Result<nat, AcquisitionError>)
    ensures r.Ok? ==> r.value <= U64_MAX
  {
    if field != [] && field[0] >= 128 then Err(UnsupportedArchive)
    else FoldOctal(0, TakeToken(SkipBlank(field)))
  }

  /** `n` octal digits, most significant first. */
  function OctalDigits(value: nat, n: nat): (d: Bytes)
    ensures |d| == n
  {
    if n == 0 then [] else OctalDigits(value / 8, n - 1) + [ZERO + value % 8]
  }

  function Pow8(n: nat): nat { if n == 0 then 1 else 8 * Pow8(n - 1) }

  lemma {:induction false} FoldAppend(value: nat, a: Bytes, b: Bytes)
    requires FoldOctal(value, a).Ok?
    ensures FoldOctal(value, a + b) == FoldOctal(FoldOctal(value, a).value, b)
    decreases |a|
  {
    if a == [] {
      assert a + b == b;
    } else {
      assert (a + b)[1..] == a[1..] + b;
      FoldAppend(value * 8 + (a[0] - ZERO), a[1..], b);
    }
  }

  lemma {:induction false} FoldDigits(value: nat, n: nat)
    requires value < Pow8(n) && value <= U64_MAX
    ensures FoldOctal(0, OctalDigits(value, n)) == Ok(value)
  {
    if n > 0 {
      FoldDigits(value / 8, n - 1);
      FoldAppend(0, OctalDigits(value / 8, n - 1), [ZERO + value % 8]);
      assert [ZERO + value % 8][1..] == [];
      assert FoldOctal(value, []) == Ok(value);
    }
  }

  lemma {:induction false} DigitsAreDigits(value: nat, n: nat)
    ensures forall i :: 0 <= i < n ==> ZERO <= OctalDigits(value, n)[i] <= ZERO + 7
  {
    if n > 0 {
      DigitsAreDigits(value / 8, n - 1);
    }
  }

  lemma {:induction false} TokenOf(digits: Bytes, rest: Bytes)
    requires forall i :: 0 <= i < |digits| ==> !IsBlank(digits[i])
    requires rest != [] && IsBlank(rest[0])
    ensures TakeToken(digits + rest) == digits
  {
    var f := digits + rest;
    if digits != [] {
      assert f[1..] == digits[1..] + rest;
      TokenOf(digits[1..], rest);
      assert digits == [digits[0]] + digits[1..];
    }
  }

  /** What a fixed-width field says is what was written, whatever blanks follow the digits. */
  lemma ParseWritten(value: nat, n: nat, rest: Bytes)
    requires n > 0 && value < Pow8(n) && value <= U64_MAX && rest != [] && IsBlank(rest[0])
    ensures ParseOctal(OctalDigits(value, n) + rest) == Ok(value)
  {
    DigitsAreDigits(value, n);
    var digits := OctalDigits(value, n);
    assert (digits + rest)[0] == digits[0];
    TokenOf(digits, rest);
    FoldDigits(value, n);
  }

  // ---------------------------------------------------------------- any field

  predicate IsOctal(digits: Bytes) { forall i :: 0 <= i < |digits| ==> ZERO <= digits[i] <= ZERO + 7 }

  /** The number that octal digits write, by place value. */
  function OctalValue(digits: Bytes): nat
    requires IsOctal(digits)
  {
    if digits == [] then 0 else (digits[0] - ZERO) * Pow8(|digits| - 1) + OctalValue(digits[1..])
  }

  lemma {:induction false} FoldExactly(value: nat, digits: Bytes)
    requires value <= U64_MAX
    ensures FoldOctal(value, digits)
         == if IsOctal(digits) && value * Pow8(|digits|) + OctalValue(digits) <= U64_MAX
            then Ok(value * Pow8(|digits|) + OctalValue(digits))
            else Err(UnsupportedArchive)
    decreases |digits|
  {
    if digits != [] && ZERO <= digits[0] <= ZERO + 7 {
      var rest, d, place := digits[1..], digits[0] - ZERO, Pow8(|digits| - 1);
      assert IsOctal(digits) <==> IsOctal(rest) by { assert forall i :: 0 < i < |digits| ==> digits[i] == rest[i - 1]; }
      Shift(value, d, place);
      if value * 8 + d <= U64_MAX {
        FoldExactly(value * 8 + d, rest);
      } else {
        PlacePositive(|digits| - 1);
        AtLeast(value * 8 + d, place);
      }
    }
  }

  lemma Shift(value: nat, d: nat, place: nat)
    ensures (value * 8 + d) * place == value * (8 * place) + d * place
  {
  }

  lemma {:induction false} PlacePositive(n: nat)
    ensures Pow8(n) >= 1
  {
    if n > 0 {
      PlacePositive(n - 1);
    }
  }

  lemma AtLeast(n: nat, place: nat)
    requires place >= 1
    ensures n * place >= n
  {
  }

  lemma {:induction false} SkipAll(blanks: Bytes, f: Bytes)
    requires (forall i :: 0 <= i < |blanks| ==> IsBlank(blanks[i])) && (f != [] ==> !IsBlank(f[0]))
    ensures SkipBlank(blanks + f) == f
  {
    if blanks == [] {
      assert blanks + f == f;
    } else {
      assert (blanks + f)[1..] == blanks[1..] + f;
      SkipAll(blanks[1..], f);
    }
  }

  lemma TokenAtEnd(digits: Bytes, rest: Bytes)
    requires (forall i :: 0 <= i < |digits| ==> !IsBlank(digits[i])) && (rest != [] ==> IsBlank(rest[0]))
    ensures TakeToken(digits + rest) == digits
  {
    if rest == [] {
      assert digits + rest == digits;
      if digits != [] {
        TokenAtEnd(digits[1..], []);
        assert digits[1..] + [] == digits[1..] && digits == [digits[0]] + digits[1..];
      }
    } else {
      TokenOf(digits, rest);
    }
  }

  /**
   Any numeric field: blanks, a token, and nothing or a blank and whatever follows. It is read exactly if the field
   does not start with a byte above 127 and the token is octal and fits 64 bits, and then as the number it writes.
   */
  lemma ParseOctalExactly(blanks: Bytes, token: Bytes, rest: Bytes)
    requires forall i :: 0 <= i < |blanks| ==> blanks[i] == 32 || blanks[i] == 0
    requires forall i :: 0 <= i < |token| ==> token[i] != 32 && token[i] != 0
    requires rest != [] ==> token != [] && (rest[0] == 32 || rest[0] == 0)
    ensures var field := blanks + token + rest;
            ParseOctal(field)
            == if (field != [] ==> field[0] < 128) && IsOctal(token) && OctalValue(token) <= U64_MAX
               then Ok(OctalValue(token)) else Err(UnsupportedArchive)
  {
    hide SkipBlank, TakeToken, FoldOctal, OctalValue, Pow8, ParseOctal;
    ParseField(blanks, token, rest);
  }

  lemma ParseField(blanks: Bytes, token: Bytes, rest: Bytes)
    requires forall i :: 0 <= i < |blanks| ==> IsBlank(blanks[i])
    requires (forall i :: 0 <= i < |token| ==> !IsBlank(token[i])) && (rest != [] ==> token != [] && IsBlank(rest[0]))
    ensures var field := blanks + token + rest;
            ParseOctal(field)
            == if (field != [] ==> field[0] < 128) && IsOctal(token) && OctalValue(token) <= U64_MAX
               then Ok(OctalValue(token)) else Err(UnsupportedArchive)
  {
    hide SkipBlank, TakeToken, FoldOctal, OctalValue, Pow8, IsBlank;
    var field := blanks + token + rest;
    assert field == blanks + (token + rest);
    assert token != [] ==> (token + rest)[0] == token[0];
    SkipAll(blanks, token + rest);
    TokenAtEnd(token, rest);
    FoldExactly(0, token);
  }
}
