/** Division and powers of two. */
module Arithmetic {

  // Products, quotients and remainders by repeated addition and subtraction.
  // They agree with `*`, `/` and `%`, and reasoning about them stays linear.

  function Times(h: nat, p: nat): (v: nat) {
    if h == 0 then 0 else p + Times(h - 1, p)
  }

  function Quotient(a: nat, d: nat): (q: nat)
    requires d > 0
  {
    if a < d then 0 else 1 + Quotient(a - d, d)
  }

  function Residue(a: nat, d: nat): (r: nat)
    requires d > 0
    ensures r < d
  {
    if a < d then a else Residue(a - d, d)
  }

  lemma {:induction false} TimesIsProduct(h: nat, p: nat)
    ensures Times(h, p) == h * p
  {
    if h > 0 {
      TimesIsProduct(h - 1, p);
      assert h * p == p + (h - 1) * p;
    }
  }

  lemma {:induction false} DoubleTimes(h: nat, p: nat)
    ensures Times(h, 2 * p) == 2 * Times(h, p)
  {
    if h > 0 {
      DoubleTimes(h - 1, p);
    }
  }

  lemma {:induction false} TimesOne(h: nat)
    ensures Times(h, 1) == h
  {
    if h > 0 {
      TimesOne(h - 1);
    }
  }

  /** Dividing a multiple of `p` with a remainder below `p` gives both back. */
  lemma {:induction false} DivideBack(h: nat, v: nat, p: nat)
    requires v < p
    ensures Quotient(Times(h, p) + v, p) == h && Residue(Times(h, p) + v, p) == v
  {
    if h > 0 {
      DivideBack(h - 1, v, p);
      assert Times(h, p) + v - p == Times(h - 1, p) + v;
    }
  }

  lemma DivisionBySubtraction(a: nat, d: nat)
    requires d > 0
    ensures Quotient(a, d) == a / d && Residue(a, d) == a % d
  {
    Remainder(a, d);
    TimesIsProduct(a / d, d);
    DivideBack(a / d, a % d, d);
  }

  /** A multiple of `p` with a remainder stays below the next multiple. */
  lemma {:induction false} RoomAbove(h: nat, v: nat, p: nat, q: nat)
    requires h < q && v < p
    ensures Times(h, p) + v < Times(q, p)
  {
    if h > 0 {
      RoomAbove(h - 1, v, p, q - 1);
    }
  }

  lemma Remainder(t: nat, m: nat)
    requires m > 0
    ensures t == (t / m) * m + t % m && t - (t / m) * m == t % m
  {
  }

  lemma MulGap(d: nat, p: nat, q: nat)
    ensures p < q ==> d * p + d <= d * q
    ensures q < p ==> d * q + d <= d * p
  {
    if p < q {
      MulStep(d, p, q);
    } else if q < p {
      MulStep(d, q, p);
    }
  }

  lemma MulStep(d: nat, p: nat, q: nat)
    requires p < q
    ensures d * p + d <= d * q
  {
    var e := q - p - 1;
    assert 0 <= d * e;
    assert d * (p + 1 + e) == d * p + d + d * e;
  }

  /** A quotient is the only number whose multiple leaves a remainder below the divisor. */
  lemma QuotientUnique(t: nat, d: nat, q: nat, r: nat)
    requires d > 0 && r < d && t == d * q + r
    ensures t / d == q && t % d == r
  {
    assert t == d * (t / d) + t % d;
    MulGap(d, t / d, q);
  }

  function Bit(b: bool): (v: nat) {
    if b then 1 else 0
  }

  function Pow2(n: nat): (p: nat)
    ensures p > 0
  {
    if n == 0 then 1 else 2 * Pow2(n - 1)
  }

  lemma {:induction false} Pow2Monotone(m: nat, n: nat)
    requires m <= n
    ensures Pow2(m) <= Pow2(n)
  {
    if m < n {
      Pow2Monotone(m, n - 1);
    }
  }

  lemma {:induction false} TimesPow2(m: nat, n: nat)
    ensures Times(Pow2(m), Pow2(n)) == Pow2(m + n)
  {
    Pow2Add(m, n);
    TimesIsProduct(Pow2(m), Pow2(n));
  }

  lemma {:induction false} Pow2Add(m: nat, n: nat)
    ensures Pow2(m + n) == Pow2(m) * Pow2(n)
  {
    if m > 0 {
      Pow2Add(m - 1, n);
      DoubleFactor(Pow2(m - 1), Pow2(n));
      assert Pow2(m + n) == 2 * Pow2(m - 1 + n);
    }
  }

  lemma DoubleFactor(a: nat, b: nat)
    ensures (2 * a) * b == 2 * (a * b)
  {
  }

  /** Reducing a factor first does not change the product modulo `m`. */
  lemma ModOfProduct(x: nat, y: nat, m: nat)
    requires m > 0
    ensures ((x % m) * y) % m == (x * y) % m
  {
    Remainder(x, m);
    var q, r := x / m, x % m;
    SpreadProduct(q, m, r, y);
    AddMultiple(r * y, q * y, m);
  }

  lemma SpreadProduct(q: nat, m: nat, r: nat, y: nat)
    ensures (q * m + r) * y == m * (q * y) + r * y
  {
    assert (q * m + r) * y == (q * m) * y + r * y;
    assert (q * m) * y == m * (q * y);
  }

  lemma AddMultiple(r: nat, k: nat, m: nat)
    requires m > 0
    ensures (m * k + r) % m == r % m
  {
    Remainder(r, m);
    assert m * k + r == m * (k + r / m) + r % m by {
      assert m * (k + r / m) == m * k + m * (r / m);
    }
    QuotientUnique(m * k + r, m, k + r / m, r % m);
  }
}
