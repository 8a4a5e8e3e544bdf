/** The order of text columns: character by character. */
module TextOrder {

  predicate Before(a: string, b: string) {
    if b == "" then false
    else if a == "" then true
    else a[0] < b[0] || (a[0] == b[0] && Before(a[1..], b[1..]))
  }

  /** At the first place where they differ, `a` has the smaller character or has already ended. */
  ghost predicate FirstDifference(a: string, b: string) {
    exists n: nat :: n <= |a| && n < |b| && a[..n] == b[..n] && (n == |a| || a[n] < b[n])
  }

  lemma {:induction false} BeforeExactly(a: string, b: string)
    ensures Before(a, b) <==> FirstDifference(a, b)
  {
    if a == "" || b == "" {
      assert a[..0] == b[..0];
    } else {
      BeforeExactly(a[1..], b[1..]);
      if n: nat :| n <= |a| && n < |b| && a[..n] == b[..n] && (n == |a| || a[n] < b[n]) {
        if n > 0 {
          assert a[0] == a[..n][0] && b[0] == b[..n][0];
          assert a[1..][..n - 1] == a[..n][1..] && b[1..][..n - 1] == b[..n][1..];
        }
      }
      if a[0] == b[0] && FirstDifference(a[1..], b[1..]) {
        var m: nat :| m <= |a[1..]| && m < |b[1..]| && a[1..][..m] == b[1..][..m]
          && (m == |a[1..]| || a[1..][m] < b[1..][m]);
        assert a[..m + 1] == [a[0]] + a[1..][..m] && b[..m + 1] == [b[0]] + b[1..][..m];
      }
      if a[0] < b[0] {
        assert a[..0] == b[..0];
      }
    }
  }

  lemma {:induction false} BeforeTotal(a: string, b: string)
    ensures a == b || Before(a, b) || Before(b, a)
    ensures Before(a, b) ==> a != b
  {
    if a != "" && b != "" {
      BeforeTotal(a[1..], b[1..]);
      assert a == [a[0]] + a[1..] && b == [b[0]] + b[1..];
    }
  }

  lemma {:induction false} BeforeTransitive(a: string, b: string, c: string)
    requires Before(a, b) && Before(b, c)
    ensures Before(a, c)
  {
    if a != "" && a[0] == b[0] == c[0] {
      BeforeTransitive(a[1..], b[1..], c[1..]);
    }
  }

  ghost predicate Ordered(s: seq<string>) { forall i, j :: 0 <= i < j < |s| ==> Before(s[i], s[j]) }

  ghost predicate First(s: set<string>, x: string) { x in s && forall y :: y in s && y != x ==> Before(x, y) }

  /** A set that is not empty has a first member. */
  lemma {:induction false} HasFirst(s: set<string>)
    requires s != {}
    ensures exists x :: First(s, x)
  {
    var x :| x in s;
    if s == {x} {
      assert First(s, x);
    } else {
      HasFirst(s - {x});
      var y :| First(s - {x}, y);
      BeforeTotal(x, y);
      if Before(x, y) {
        forall z | z in s && z != x
          ensures Before(x, z)
        {
          if z != y {
            BeforeTransitive(x, y, z);
          }
        }
        assert First(s, x);
      } else {
        assert First(s, y);
      }
    }
  }
}
