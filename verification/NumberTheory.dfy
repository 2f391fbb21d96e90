/** Powers, congruences, divisibility and primes. */
module NumberTheory {
  function Pow(b: int, e: nat): int {
    if e == 0 then 1 else b * Pow(b, e - 1)
  }

  function Times(n: int, k: int): int {
    n * k
  }

  /** `a` and `b` differ by a multiple of `n`. */
  ghost predicate Cong(a: int, b: int, n: int) {
    exists k :: a == b + Times(n, k)
  }

  ghost predicate Divides(d: int, x: int) {
    Cong(x, 0, d)
  }

  ghost predicate IsPrime(p: int) {
    2 <= p && forall d :: 1 < d < p ==> !Divides(d, p)
  }

  // -------------------------------------------------------------------------------------------
  // Congruences

  lemma CongBy(a: int, b: int, n: int, k: int)
    requires a == b + n * k
    ensures Cong(a, b, n)
  {
    assert a == b + Times(n, k);
  }

  lemma Quotient(a: int, b: int, n: int) returns (k: int)
    requires Cong(a, b, n)
    ensures a == b + n * k
  {
    k :| a == b + Times(n, k);
  }

  lemma CongRefl(a: int, n: int)
    ensures Cong(a, a, n)
  {
    CongBy(a, a, n, 0);
  }

  lemma CongSym(a: int, b: int, n: int)
    requires Cong(a, b, n)
    ensures Cong(b, a, n)
  {
    var k := Quotient(a, b, n);
    assert n * -k == -(n * k);
    CongBy(b, a, n, -k);
  }

  lemma CongTrans(a: int, b: int, c: int, n: int)
    requires Cong(a, b, n) && Cong(b, c, n)
    ensures Cong(a, c, n)
  {
    var k := Quotient(a, b, n);
    var l := Quotient(b, c, n);
    assert n * (k + l) == n * k + n * l;
    CongBy(a, c, n, k + l);
  }

  lemma CongAdd(a: int, b: int, c: int, d: int, n: int)
    requires Cong(a, b, n) && Cong(c, d, n)
    ensures Cong(a + c, b + d, n)
  {
    var k := Quotient(a, b, n);
    var l := Quotient(c, d, n);
    assert n * (k + l) == n * k + n * l;
    CongBy(a + c, b + d, n, k + l);
  }

  lemma MulIdentity(b: int, d: int, n: int, k: int, l: int)
    ensures (b + n * k) * (d + n * l) == b * d + n * (b * l + k * d + k * (n * l))
  {
    calc {
      (b + n * k) * (d + n * l);
      b * d + b * (n * l) + (n * k) * d + (n * k) * (n * l);
      b * d + n * (b * l) + n * (k * d) + n * (k * (n * l));
      b * d + n * (b * l + k * d + k * (n * l));
    }
  }

  lemma CongMul(a: int, b: int, c: int, d: int, n: int)
    requires Cong(a, b, n) && Cong(c, d, n)
    ensures Cong(a * c, b * d, n)
  {
    var k := Quotient(a, b, n);
    var l := Quotient(c, d, n);
    MulIdentity(b, d, n, k, l);
    CongBy(a * c, b * d, n, b * l + k * d + k * (n * l));
  }

  lemma {:induction false} CongPow(a: int, b: int, n: int, e: nat)
    requires Cong(a, b, n)
    ensures Cong(Pow(a, e), Pow(b, e), n)
  {
    if e == 0 {
      CongRefl(1, n);
    } else {
      CongPow(a, b, n, e - 1);
      CongMul(a, b, Pow(a, e - 1), Pow(b, e - 1), n);
    }
  }

  lemma SmallMultiple(n: int, d: int)
    requires n > 0 && -n < n * d < n
    ensures d == 0
  {
  }

  /** Quotient and remainder are unique. */
  lemma DivModUnique(x: int, n: int, q: int, r: int)
    requires n > 0 && x == n * q + r && 0 <= r < n
    ensures x / n == q && x % n == r
  {
    var d := x / n - q;
    assert x == n * (x / n) + x % n;
    assert n * d == n * (x / n) - n * q;
    SmallMultiple(n, d);
  }

  lemma CongMod(a: int, n: int)
    requires n > 0
    ensures Cong(a % n, a, n) && Cong(a, a % n, n)
  {
    assert a == n * (a / n) + a % n;
    CongBy(a, a % n, n, a / n);
    CongSym(a, a % n, n);
  }

  lemma CongSameMod(a: int, b: int, n: int)
    requires n > 0 && Cong(a, b, n)
    ensures a % n == b % n
  {
    var k := Quotient(a, b, n);
    assert b == n * (b / n) + b % n;
    assert n * (b / n + k) == n * (b / n) + n * k;
    DivModUnique(a, n, b / n + k, b % n);
  }

  // -------------------------------------------------------------------------------------------
  // Powers

  lemma {:induction false} PowAdd(b: int, x: nat, y: nat)
    ensures Pow(b, x + y) == Pow(b, x) * Pow(b, y)
  {
    if x > 0 {
      PowAdd(b, x - 1, y);
      assert b * (Pow(b, x - 1) * Pow(b, y)) == (b * Pow(b, x - 1)) * Pow(b, y);
    }
  }

  lemma NatProduct(x: nat, y: nat)
    ensures 0 <= x * y
  {
  }

  lemma {:induction false} PowMul(b: int, x: nat, y: nat)
    ensures 0 <= x * y && Pow(Pow(b, x), y) == Pow(b, x * y)
    decreases y
  {
    NatProduct(x, y);
    if y > 0 {
      NatProduct(x, y - 1);
      PowMul(b, x, y - 1);
      PowAdd(b, x, x * (y - 1));
      assert x + x * (y - 1) == x * y;
    }
  }

  lemma Regroup(a: int, b: int, x: int, y: int)
    ensures (a * b) * (x * y) == (a * x) * (b * y)
  {
    calc {
      (a * b) * (x * y);
      a * (b * (x * y));
      a * (x * (b * y));
      (a * x) * (b * y);
    }
  }

  lemma {:induction false} PowProduct(a: int, b: int, e: nat)
    ensures Pow(a * b, e) == Pow(a, e) * Pow(b, e)
  {
    if e > 0 {
      PowProduct(a, b, e - 1);
      Regroup(a, b, Pow(a, e - 1), Pow(b, e - 1));
    }
  }

  lemma {:induction false} PowOne(e: nat)
    ensures Pow(1, e) == 1
  {
    if e > 0 {
      PowOne(e - 1);
    }
  }

  // -------------------------------------------------------------------------------------------
  // Divisibility

  lemma DividesBy(d: int, x: int, k: int)
    requires x == d * k
    ensures Divides(d, x)
  {
    CongBy(x, 0, d, k);
  }

  lemma Cofactor(d: int, x: int) returns (k: int)
    requires Divides(d, x)
    ensures x == d * k
  {
    k := Quotient(x, 0, d);
  }

  lemma DividesLinear(d: int, x: int, y: int, a: int, b: int)
    requires Divides(d, x) && Divides(d, y)
    ensures Divides(d, x * a + y * b)
  {
    var k := Cofactor(d, x);
    var l := Cofactor(d, y);
    assert d * k * a + d * l * b == d * (k * a + l * b);
    DividesBy(d, x * a + y * b, k * a + l * b);
  }

  lemma DivisorBound(d: int, x: int)
    requires d > 0 && x > 0 && Divides(d, x)
    ensures d <= x
  {
    var k := Cofactor(d, x);
    assert k >= 1;
    assert d * k >= d * 1;
  }

  lemma BezoutStep(a: int, b: int, q: int, r: int, x: int, y: int)
    requires a == b * q + r
    ensures b * x + r * y == a * y + b * (x - q * y)
  {
    calc {
      b * x + r * y;
      b * x + (a - b * q) * y;
      b * x + a * y - (b * q) * y;
      b * x + a * y - b * (q * y);
      a * y + b * (x - q * y);
    }
  }

  /** Extended Euclid: a common divisor of both numbers and its coefficients. */
  function ExtGcd(a: nat, b: nat): (int, int, int)
    decreases b
  {
    if b == 0 then (a, 1, 0) else
    var (g, x, y) := ExtGcd(b, a % b);
    (g, y, x - (a / b) * y)
  }

  function Gcd(a: nat, b: nat): int {
    ExtGcd(a, b).0
  }

  /** Bezout's identity. */
  lemma {:induction false} ExtGcdMeaning(a: nat, b: nat)
    requires a > 0
    ensures var (g, x, y) := ExtGcd(a, b);
      g > 0 && g == a * x + b * y && Divides(g, a) && Divides(g, b)
    decreases b
  {
    hide Divides;
    if b == 0 {
      DividesBy(a, a, 1);
      DividesBy(a, 0, 0);
    } else {
      ExtGcdMeaning(b, a % b);
      var (g, x, y) := ExtGcd(b, a % b);
      assert a == b * (a / b) + a % b;
      BezoutStep(a, b, a / b, a % b, x, y);
      DividesLinear(g, b, a % b, a / b, 1);
    }
  }

  /** No common divisor but 1. */
  ghost predicate Coprime(a: int, b: int) {
    forall d :: d > 1 && Divides(d, a) ==> !Divides(d, b)
  }

  lemma CoprimeBezout(a: nat, b: nat) returns (x: int, y: int)
    requires a > 0 && Coprime(a, b)
    ensures a * x + b * y == 1
  {
    ExtGcdMeaning(a, b);
    var (g, u, v) := ExtGcd(a, b);
    assert g == 1;
    x, y := u, v;
  }

  lemma PrimeCoprime(p: nat, a: nat)
    requires IsPrime(p) && !Divides(p, a)
    ensures Coprime(p, a)
  {
    forall d | d > 1 && Divides(d, p)
      ensures !Divides(d, a)
    {
      DivisorBound(d, p);
    }
  }

  /** A number coprime to `a` that divides `a * b` divides `b`. */
  lemma GaussLemma(n: nat, a: nat, b: int)
    requires n > 0 && Coprime(n, a) && Divides(n, a * b)
    ensures Divides(n, b)
  {
    var x, y := CoprimeBezout(n, a);
    var k := Cofactor(n, a * b);
    calc {
      b;
      (n * x + a * y) * b;
      n * (x * b) + (a * b) * y;
      n * (x * b) + (n * k) * y;
      n * (x * b + k * y);
    }
    DividesBy(n, b, x * b + k * y);
  }

  /** Euclid's lemma. */
  lemma PrimeDividesProduct(p: nat, a: nat, b: int)
    requires IsPrime(p) && Divides(p, a * b)
    ensures Divides(p, a) || Divides(p, b)
  {
    hide Divides, Coprime;
    if !Divides(p, a) {
      PrimeCoprime(p, a);
      GaussLemma(p, a, b);
    }
  }

  /** What two different primes divide, their product divides. */
  lemma PrimesProductDivides(p: nat, q: nat, x: int)
    requires IsPrime(p) && IsPrime(q) && p != q && Divides(p, x) && Divides(q, x)
    ensures Divides(p * q, x)
  {
    var k := Cofactor(p, x);
    assert !Divides(q, p) by {
      if Divides(q, p) {
        DivisorBound(q, p);
      }
    }
    PrimeDividesProduct(q, p, k);
    var l := Cofactor(q, k);
    assert p * (q * l) == p * q * l;
    DividesBy(p * q, x, l);
  }
}
