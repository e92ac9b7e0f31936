/** The few facts of multiplication and remainder that array indexing needs. */
module Arith {

  lemma MulSucc(n: int, m: int)
    ensures (n + 1) * m == n * m + m
  {
  }

  lemma {:induction false} MulMono(a: nat, b: nat, m: nat)
    requires a <= b
    ensures a * m <= b * m
  {
    if a < b {
      MulMono(a, b - 1, m);
      MulSucc(b - 1, m);
    }
  }

  /** Quotient and remainder are unique. */
  lemma ModUnique(a: nat, m: nat, q: nat, r: nat)
    requires m > 0 && a == q * m + r && r < m
    ensures a % m == r && a / m == q
  {
    var (x, y) := (a / m, a % m);
    assert a == x * m + y;
    if q < x {
      MulMono(q + 1, x, m);
      MulSucc(q, m);
    } else if x < q {
      MulMono(x + 1, q, m);
      MulSucc(x, m);
    }
  }

  lemma NextRem(a: nat, m: nat)
    requires m >= 1
    ensures (a + 1) % m == if a % m + 1 < m then a % m + 1 else 0
  {
    var (q, k) := (a / m, a % m);
    assert a == q * m + k;
    if k + 1 < m {
      ModUnique(a + 1, m, q, k + 1);
    } else {
      MulSucc(q, m);
      ModUnique(a + 1, m, q + 1, 0);
    }
  }

  /** Different rows of a flat table do not meet. */
  lemma RowsApart(total: nat, i: nat, j: nat)
    requires i < j
    ensures 0 <= i * total && i * total + total <= j * total
  {
    MulMono(i + 1, j, total);
    MulSucc(i, total);
  }

  lemma MulAssoc(a: int, b: int, c: int)
    ensures a * (b * c) == (a * b) * c
  {
  }

  /** Whole multiples do not change a remainder. */
  lemma ModAdd(r: nat, m: nat, q: nat)
    requires m > 0
    ensures (q * m + r) % m == r % m
  {
    var (x, y) := (r / m, r % m);
    assert r == x * m + y;
    assert q * m + r == (q + x) * m + y;
    ModUnique(q * m + r, m, q + x, y);
  }

  /** Adding to a remainder is adding to the number. */
  lemma ModSum(x: nat, y: nat, m: nat)
    requires m > 0
    ensures (x % m + y) % m == (x + y) % m
  {
    var (q, r) := (x / m, x % m);
    assert x + y == q * m + (r + y);
    ModAdd(r + y, m, q);
  }

  /** A factor may be wrapped before the product is. */
  lemma ModFactor(a: nat, t: nat, big: nat)
    requires big > 0
    ensures 0 <= a % big * t && a % big * t % big == a * t % big
  {
    var (q, r) := (a / big, a % big);
    MulMono(0, r, t);
    assert a == q * big + r;
    assert a * t == q * big * t + r * t;
    assert q * big * t == q * t * big;
    MulMono(0, q, t);
    ModAdd(r * t, big, q * t);
  }

  /** The remainder by subtraction: the same number as a % m, without nonlinear terms. */
  function Rem(a: nat, m: nat): (r: nat)
    requires m >= 1
    ensures r < m
  {
    if a < m then a else Rem(a - m, m)
  }

  lemma {:induction false} RemIsMod(a: nat, m: nat)
    requires m >= 1
    ensures Rem(a, m) == a % m
  {
    if a >= m {
      RemIsMod(a - m, m);
      ModAdd(a - m, m, 1);
    } else {
      ModUnique(a, m, 0, a);
    }
  }

  /** Two numbers of one window with the same remainder are the same. */
  lemma {:induction false} SameInWindow(a: nat, b: nat, m: nat)
    requires m >= 1 && a < b + m && b < a + m && Rem(a, m) == Rem(b, m)
    ensures a == b
  {
    if a >= m && b >= m {
      SameInWindow(a - m, b - m, m);
    }
  }

  lemma DistinctInWindow(a: nat, b: nat, m: nat)
    requires m >= 1 && a < b + m && b < a + m && a != b
    ensures Rem(a, m) != Rem(b, m)
  {
    if Rem(a, m) == Rem(b, m) { SameInWindow(a, b, m); }
  }
}
