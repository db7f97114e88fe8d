/** Facts about non-negative multiplication, division and remainder that the
    solver does not find on its own. */
module Arith {

  lemma DivModUnique(k: int, d: int, q: int, r: int)
    requires d > 0 && 0 <= r < d && k == q * d + r
    ensures k / d == q && k % d == r
  {
    var q' := k / d;
    if q' > q {
      MulAtLeast(q' - q, d);
      assert false;
    } else if q' < q {
      MulAtLeast(q - q', d);
      assert false;
    }
  }

  lemma MulAtLeast(a: int, d: int)
    requires a >= 1 && d > 0
    ensures a * d >= d
  {
  }

  lemma MulMono(a: int, b: int, c: int)
    requires a <= b && c >= 0
    ensures a * c <= b * c
  {
  }

  lemma MulSucc(a: int, b: int)
    ensures (a + 1) * b == a * b + b
  {
  }

  lemma DivBelow(a: int, w: int, s: int)
    requires s > 0 && 0 <= a < w * s
    ensures a / s < w
  {
  }

  lemma ModOfSum(a: nat, b: nat, m: nat)
    requires m > 0
    ensures (a + b) % m == (a % m + b % m) % m
  {
    var qa, qb := a / m, b / m;
    assert a + b == (qa + qb) * m + (a % m + b % m);
    var s := a % m + b % m;
    assert (a + b) % m == s % m by {
      assert a + b == (qa + qb + s / m) * m + s % m;
      DivModUnique(a + b, m, qa + qb + s / m, s % m);
    }
  }
}
