/** Products, quotients and remainders of natural numbers. */
module Arith {
  lemma MulMono(a: nat, b: nat, c: nat)
    requires a <= b
    ensures a * c <= b * c
  {
  }

  lemma DivModUnique(x: nat, m: nat, q: nat, r: nat)
    requires x == q * m + r && r < m
    ensures x / m == q && x % m == r
  {
    var q', r' := x / m, x % m;
    assert x == q' * m + r';
    assert (q' + 1) * m == q' * m + m;
    assert (q + 1) * m == q * m + m;
    if q' < q {
      MulMono(q' + 1, q, m);
    } else if q < q' {
      MulMono(q + 1, q', m);
    }
  }

  lemma ModOfSum(q: nat, m: nat, r: nat)
    requires 0 < r <= m
    ensures (q * m + r) % m == if r == m then 0 else r
  {
    if r == m {
      assert q * m + r == (q + 1) * m;
      DivModUnique(q * m + r, m, q + 1, 0);
    } else {
      DivModUnique(q * m + r, m, q, r);
    }
  }

  lemma DivBounds(a: nat, m: nat)
    requires 0 < m
    ensures (a / m) * m <= a < (a / m + 1) * m
  {
  }

  lemma Distribute(a: nat, b: nat, y: nat)
    ensures (a + b) * y == a * y + b * y
  {
  }

  lemma Assoc(a: nat, b: nat, c: nat)
    ensures a * (b * c) == (a * b) * c
  {
  }

  lemma Commute(a: nat, b: nat)
    ensures a * b == b * a
  {
  }

  lemma ModMultiple(k: nat, m: nat, a: nat)
    requires 0 < m
    ensures (k * m + a) % m == a % m
  {
    var q, r := a / m, a % m;
    assert a == q * m + r;
    Distribute(k, q, m);
    DivModUnique(k * m + a, m, k + q, r);
  }

  lemma ModMul(x: nat, y: nat, m: nat)
    requires 0 < m
    ensures ((x % m) * y) % m == (x * y) % m
  {
    var q, r := x / m, x % m;
    assert x == q * m + r;
    Distribute(q * m, r, y);
    Assoc(q, m, y);
    Commute(m, y);
    Assoc(q, y, m);
    ModMultiple(q * y, m, r * y);
  }

  /** Equal remainders multiply to equal remainders. */
  lemma ModMulCongruent(a: nat, b: nat, c: nat, d: nat, m: nat)
    requires 0 < m && a % m == c % m && b % m == d % m
    ensures (a * b) % m == (c * d) % m
  {
    ModMul(a, b, m);
    ModMul(c, b, m);
    Commute(c, b);
    ModMul(b, c, m);
    ModMul(d, c, m);
    Commute(d, c);
  }

  // ---- Powers ----

  function Pow(b: nat, e: nat): nat {
    if e == 0 then 1 else b * Pow(b, e - 1)
  }

  lemma {:induction false} PowMod(x: nat, e: nat, m: nat)
    requires 0 < m
    ensures Pow(x % m, e) % m == Pow(x, e) % m
  {
    if e != 0 {
      PowMod(x, e - 1, m);
      ModMod(x, m);
      ModMulCongruent(x % m, Pow(x % m, e - 1), x, Pow(x, e - 1), m);
    }
  }

  lemma ModMod(x: nat, m: nat)
    requires 0 < m
    ensures (x % m) % m == x % m
  {
  }

  lemma {:induction false} PowSum(b: nat, m: nat, n: nat)
    ensures Pow(b, m + n) == Pow(b, m) * Pow(b, n)
  {
    if m != 0 {
      PowSum(b, m - 1, n);
      Assoc(b, Pow(b, m - 1), Pow(b, n));
    }
  }

  lemma {:induction false} PowPow(b: nat, m: nat, n: nat)
    ensures Pow(Pow(b, m), n) == Pow(b, m * n)
  {
    if n == 0 {
      assert m * n == 0;
    } else {
      PowPow(b, m, n - 1);
      assert m + m * (n - 1) == m * n;
      PowSum(b, m, m * (n - 1));
    }
  }
}
