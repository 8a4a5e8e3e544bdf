/** Decimal text of a natural number, as Python's `str` prints it. */
module Decimal {

  function Digit(d: nat): char
    requires d < 10
  {
    "0123456789"[d]
  }

  function Text(n: nat): string {
    if n < 10 then [Digit(n)] else Text(n / 10) + [Digit(n % 10)]
  }

  lemma {:induction false} TextInjective(m: nat, n: nat)
    requires Text(m) == Text(n)
    ensures m == n
  {
    var s, t := Text(m), Text(n);
    assert s[|s| - 1] == Digit(m % 10) && t[|t| - 1] == Digit(n % 10);
    if m >= 10 && n >= 10 {
      assert s[..|s| - 1] == Text(m / 10) && t[..|t| - 1] == Text(n / 10);
      TextInjective(m / 10, n / 10);
    } else {
      TextNonempty(m / 10);
      TextNonempty(n / 10);
    }
  }

  lemma {:induction false} TextNonempty(n: nat)
    ensures |Text(n)| >= 1 && forall i :: 0 <= i < |Text(n)| ==> Text(n)[i] in "0123456789"
  {
    if n >= 10 {
      TextNonempty(n / 10);
    }
  }
}
