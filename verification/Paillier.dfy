/** The Paillier scheme behind private bids, after section 4 of Paillier, EUROCRYPT '99. */
module Paillier {
  import opened Numbers
  import opened NumberTheory
  import opened Fermat
  import opened BigBytes

  // -------------------------------------------------------------------------------------------
  // Arithmetic the scheme calls

  /** `big.Int.ModInverse`: nothing unless the numbers are coprime. */
  function ModInverse(x: int, m: nat): Option<nat>
    requires m > 0
  {
    var y := if x < 0 then x % m else x;
    if y > 0 && Gcd(y, m) == 1 then Some(ExtGcd(y, m).1 % m) else None
  }

  lemma ModInverseMeaning(x: nat, m: nat)
    requires m > 0 && x > 0
    ensures ModInverse(x, m).Some? <==> Coprime(x, m)
    ensures ModInverse(x, m).Some? ==> ModInverse(x, m).value < m && Cong(x * ModInverse(x, m).value, 1, m)
  {
    hide ExtGcd, Divides;
    ExtGcdMeaning(x, m);
    var (g, u, v) := ExtGcd(x, m);
    if g == 1 {
      InverseByBezout(x, m, u, v);
      OneDividesOnly(x, m, u, v);
    } else {
      assert g > 1;
    }
  }

  lemma InverseByBezout(x: nat, m: nat, u: int, v: int)
    requires m > 0 && x * u + m * v == 1
    ensures Cong(x * (u % m), 1, m)
  {
    CongMod(u, m);
    CongRefl(x, m);
    CongMul(x, x, u % m, u, m);
    assert m * -v == -(m * v);
    CongBy(x * u, 1, m, -v);
    CongTrans(x * (u % m), x * u, 1, m);
  }

  lemma OneDividesOnly(x: nat, m: nat, u: int, v: int)
    requires x * u + m * v == 1
    ensures Coprime(x, m)
  {
    forall d | d > 1 && Divides(d, x)
      ensures !Divides(d, m)
    {
      if Divides(d, m) {
        DividesLinear(d, x, m, u, v);
        DivisorBound(d, 1);
      }
    }
  }

  /** `big.Int.Exp`: a negative exponent takes powers of the inverse, if there is one. */
  function ModExp(x: nat, e: int, m: nat): Option<nat>
    requires m > 0
  {
    if e >= 0 then Some(Pow(x, e) % m) else
    match ModInverse(x, m)
    case Some(y) => Some(Pow(y, -e) % m)
    case None => None
  }

  /** L(u) = (u - 1) / n */
  function L(u: int, n: nat): int
    requires n > 0
  {
    (u - 1) / n
  }

  function Lcm(a: nat, b: nat): (r: nat)
    requires a > 0 && b > 0
    ensures r > 0
  {
    assert Gcd(a, b) > 0 && (a * b) / Gcd(a, b) > 0 by { LcmPositive(a, b); }
    (a * b) / Gcd(a, b)
  }

  lemma LcmFactors(a: nat, b: nat) returns (g: nat, a': nat, b': nat)
    requires a > 0 && b > 0
    ensures g == Gcd(a, b) && g > 0 && a' > 0 && b' > 0 && a == g * a' && b == g * b'
    ensures (a * b) / g == a' * b && (a * b) / g == a * b'
  {
    hide ExtGcd, Divides;
    ExtGcdMeaning(a, b);
    g := Gcd(a, b);
    var x := Cofactor(g, a);
    var y := Cofactor(g, b);
    assert x > 0 && y > 0;
    a', b' := x, y;
    assert a * b == g * (a' * b) by { assert (g * a') * b == g * (a' * b); }
    assert a' * b == a * b' by { assert a' * (g * b') == (g * a') * b'; }
    DivModUnique(a * b, g, a' * b, 0);
  }

  lemma LcmPositive(a: nat, b: nat)
    requires a > 0 && b > 0
    ensures Gcd(a, b) > 0 && (a * b) / Gcd(a, b) > 0
  {
    hide Gcd;
    var g, a', b' := LcmFactors(a, b);
    Positive(a', b);
  }

  // -------------------------------------------------------------------------------------------
  // Keys

  datatype Scheme = Scheme(n: nat, n2: nat, g: nat, lambda: nat, mu: nat)

  /** Odd primes within a factor of two of each other, as any two primes of one bit length are. Key
      generation draws them independently and may draw the same one twice. */
  ghost predicate ValidPrimes(p: nat, q: nat) {
    IsPrime(p) && IsPrime(q) && 2 < p && 2 < q && p < 2 * q && q < 2 * p
  }

  /** Valid primes exist, for instance 5 and 7. */
  lemma SmallestKey()
    ensures ValidPrimes(5, 7)
  {
    SmallPrime(5);
    SmallPrime(7);
  }

  lemma SmallPrime(p: nat)
    requires p == 5 || p == 7
    ensures IsPrime(p)
  {
    forall d | 1 < d < p
      ensures !Divides(d, p)
    {
      if Divides(d, p) {
        var k := Cofactor(d, p);
        assert d == 2 || d == 3 || d == 4 || d == 5 || d == 6;
        assert p % d == 0 by { DivModUnique(p, d, k, 0); }
      }
    }
  }

  lemma LcmIsMultiple(a: nat, b: nat) returns (k: nat, l: nat)
    requires a > 0 && b > 0
    ensures Lcm(a, b) == a * k && Lcm(a, b) == b * l
    ensures Divides(Lcm(a, b), a * b)
  {
    hide Gcd, Divides;
    var g, a', b' := LcmFactors(a, b);
    k, l := b', a';
    assert (a' * b) * g == (g * a') * b;
    DividesBy(Lcm(a, b), a * b, g);
  }

  lemma Positive(a: int, b: int)
    requires a > 0 && b > 0
    ensures a * b > 0
  {
  }

  lemma NeighboursNotBothPrime(p: nat)
    requires 2 < p
    ensures !(IsPrime(p) && IsPrime(p + 1))
  {
    if p % 2 == 0 {
      DividesBy(2, p, p / 2);
    } else {
      DividesBy(2, p + 1, p / 2 + 1);
    }
  }

  lemma OnlyOnce(p: int, k: int)
    requires 0 < p && 0 < p * k < 2 * p
    ensures k == 1
  {
    SmallMultiple(p, k - 1) by { assert p * (k - 1) == p * k - p; }
  }

  /** A prime of the key divides neither p - 1 nor q - 1. */
  lemma PrimeAndPredecessors(p: nat, q: nat)
    requires ValidPrimes(p, q)
    ensures !Divides(p, p - 1) && !Divides(p, q - 1)
  {
    hide IsPrime, Divides;
    if Divides(p, p - 1) {
      DivisorBound(p, p - 1);
    }
    if Divides(p, q - 1) {
      var k := Cofactor(p, q - 1);
      OnlyOnce(p, k);
      NeighboursNotBothPrime(p);
    }
  }

  lemma PrimeNotInLambda(p: nat, q: nat, lambda: nat)
    requires ValidPrimes(p, q) && Divides(lambda, (p - 1) * (q - 1))
    ensures !Divides(p, lambda)
  {
    hide ValidPrimes;
    assert IsPrime(p) && p > 0 && q > 0 by { PrimesOf(p, q); }
    PrimeAndPredecessors(p, q);
    if Divides(p, lambda) {
      var k := Cofactor(p, lambda);
      var l := Cofactor(lambda, (p - 1) * (q - 1));
      assert (p * k) * l == p * (k * l);
      DividesBy(p, (p - 1) * (q - 1), k * l);
      PrimeDividesProduct(p, p - 1, q - 1);
    }
  }

  lemma PrimesOf(p: nat, q: nat)
    requires ValidPrimes(p, q)
    ensures IsPrime(p) && IsPrime(q) && 2 < p && 2 < q && ValidPrimes(q, p)
  {
  }

  /** A number that neither prime divides is coprime to their product. */
  lemma CoprimeToProduct(p: nat, q: nat, x: nat)
    requires IsPrime(p) && IsPrime(q) && !Divides(p, x) && !Divides(q, x)
    ensures Coprime(x, p * q)
  {
    PrimeCoprime(p, x);
    PrimeCoprime(q, x);
    var a, b := CoprimeBezout(p, x);
    var c, d := CoprimeBezout(q, x);
    CombineBezout(p, q, x, a, b, c, d);
    NatProduct(p, q);
    OneDividesOnly(x, p * q, b + d * (p * a), a * c);
  }

  lemma CombineBezout(p: int, q: int, x: int, a: int, b: int, c: int, d: int)
    requires p * a + x * b == 1 && q * c + x * d == 1
    ensures x * (b + d * (p * a)) + (p * q) * (a * c) == 1
  {
    calc {
      x * (b + d * (p * a)) + (p * q) * (a * c);
      x * b + x * (d * (p * a)) + (p * q) * (a * c);
      { assert x * (d * (p * a)) == (p * a) * (x * d); assert (p * q) * (a * c) == (p * a) * (q * c); }
      x * b + (p * a) * (x * d) + (p * a) * (q * c);
      x * b + (p * a) * (x * d + q * c);
      1;
    }
  }

  /** The private exponent is coprime to the modulus, which the code never checks. */
  lemma LambdaCoprime(p: nat, q: nat)
    requires ValidPrimes(p, q)
    ensures Coprime(Lcm(p - 1, q - 1), p * q)
  {
    hide Divides, Coprime, Lcm;
    PrimesOf(p, q);
    var k, l := LcmIsMultiple(p - 1, q - 1);
    PrimeNotInLambda(p, q, Lcm(p - 1, q - 1));
    assert (p - 1) * (q - 1) == (q - 1) * (p - 1);
    PrimeNotInLambda(q, p, Lcm(p - 1, q - 1));
    CoprimeToProduct(p, q, Lcm(p - 1, q - 1));
  }

  /** r^lambda = 1 mod n, from Fermat's little theorem for both primes. */
  lemma CarmichaelPower(p: nat, q: nat, r: nat)
    requires ValidPrimes(p, q) && p != q && Coprime(r, p * q)
    ensures Cong(Pow(r, Lcm(p - 1, q - 1)), 1, p * q)
  {
    hide Lcm, Coprime, Pow;
    PrimesOf(p, q);
    var k, l := LcmIsMultiple(p - 1, q - 1);
    var e := Lcm(p - 1, q - 1);
    NoPrimeFactor(r, p, q);
    assert p * q == q * p;
    NoPrimeFactor(r, q, p);
    FermatMultiple(r, p, k, e);
    FermatMultiple(r, q, l, e);
    PrimesProductDivides(p, q, Pow(r, e) - 1);
    var m := Cofactor(p * q, Pow(r, e) - 1);
    CongBy(Pow(r, e), 1, p * q, m);
  }

  lemma NoPrimeFactor(r: nat, p: nat, q: nat)
    requires Coprime(r, p * q) && p > 1
    ensures !Divides(p, r)
  {
    DividesBy(p, p * q, q);
  }

  lemma FermatMultiple(r: nat, p: nat, k: nat, e: nat)
    requires IsPrime(p) && !Divides(p, r) && e == (p - 1) * k
    ensures Divides(p, Pow(r, e) - 1)
  {
    hide Pow;
    FermatLittle(r, p);
    CongPow(Pow(r, p - 1), 1, p, k);
    PowMul(r, p - 1, k);
    PowOne(k);
    var m := Quotient(Pow(r, e), 1, p);
    DividesBy(p, Pow(r, e) - 1, m);
  }

  /** Key generation from the two primes: n = pq, g = n + 1, lambda = lcm(p - 1, q - 1) and
      mu = L(g^lambda mod n^2)^-1 mod n. */
  function NewScheme(p: nat, q: nat): Option<Scheme>
    requires p > 1 && q > 1
  {
    Positive(p, q);
    Positive(p * q, p * q);
    var n: nat := p * q;
    var lambda := Lcm(p - 1, q - 1);
    match ModExp(n + 1, lambda, n * n)
    case None => None
    case Some(u) =>
      match ModInverse(L(u, n), n)
      case None => None
      case Some(mu) => Some(Scheme(n, n * n, n + 1, lambda, mu))
  }

  // -------------------------------------------------------------------------------------------
  // Arithmetic modulo n^2

  lemma OnePlusProduct(n: int, x: int, y: int)
    ensures (1 + n * x) * (1 + n * y) == 1 + n * (x + y) + (n * n) * (x * y)
  {
    calc {
      (1 + n * x) * (1 + n * y);
      1 + n * x + n * y + (n * x) * (n * y);
      { Regroup(n, x, n, y); }
      1 + n * x + n * y + (n * n) * (x * y);
      1 + n * (x + y) + (n * n) * (x * y);
    }
  }

  /** (1 + nx)(1 + ny) = 1 + n(x + y) modulo n^2. */
  lemma OnePlusMul(n: int, a: int, b: int, x: int, y: int)
    requires Cong(a, 1 + n * x, n * n) && Cong(b, 1 + n * y, n * n)
    ensures Cong(a * b, 1 + n * (x + y), n * n)
  {
    CongMul(a, 1 + n * x, b, 1 + n * y, n * n);
    OnePlusProduct(n, x, y);
    CongBy((1 + n * x) * (1 + n * y), 1 + n * (x + y), n * n, x * y);
    CongTrans(a * b, (1 + n * x) * (1 + n * y), 1 + n * (x + y), n * n);
  }

  /** (1 + nx)^e = 1 + nxe modulo n^2. */
  lemma {:induction false} OnePlusPow(n: int, a: int, x: int, e: nat)
    requires Cong(a, 1 + n * x, n * n)
    ensures Cong(Pow(a, e), 1 + n * (x * e), n * n)
  {
    if e == 0 {
      CongRefl(1, n * n);
    } else {
      OnePlusPow(n, a, x, e - 1);
      OnePlusMul(n, a, Pow(a, e - 1), x, x * (e - 1));
      assert x + x * (e - 1) == x * e;
    }
  }

  lemma ReduceIdentity(n: int, q: int, r: int)
    ensures 1 + n * (n * q + r) == 1 + n * r + (n * n) * q
  {
    assert n * (n * q) == (n * n) * q;
    assert n * (n * q + r) == n * (n * q) + n * r;
  }

  lemma BelowSquare(n: int, r: int)
    requires n > 1 && 0 <= r < n
    ensures 0 <= 1 + n * r < n * n
  {
    NatProduct(n, r);
    NatProduct(n, n - 1 - r);
    assert n * n == n * r + n * (n - 1 - r) + n;
  }

  lemma OnePlusReduce(n: nat, x: int)
    requires n > 1
    ensures Cong(1 + n * x, 1 + n * (x % n), n * n) && 0 <= 1 + n * (x % n) < n * n
  {
    var q, r := x / n, x % n;
    assert x == n * q + r;
    ReduceIdentity(n, q, r);
    CongBy(1 + n * x, 1 + n * r, n * n, q);
    BelowSquare(n, r);
  }

  /** L recovers x from 1 + nx. */
  lemma LRecovers(n: nat, u: int, x: int)
    requires n > 1 && n * n > 0 && Cong(u, 1 + n * x, n * n)
    ensures L(u % (n * n), n) == x % n
  {
    OnePlusReduce(n, x);
    var v := 1 + n * (x % n);
    CongTrans(u, 1 + n * x, v, n * n);
    CongSameMod(u, v, n * n);
    DivModUnique(v, n * n, 0, v);
    DivModUnique(v - 1, n, x % n, 0);
  }

  // -------------------------------------------------------------------------------------------
  // Ciphertexts

  /** `s` is the key generated from these primes. */
  ghost predicate KeyOf(s: Scheme, p: nat, q: nat) {
    && ValidPrimes(p, q)
    && s.n == p * q && s.n > 1 && s.n2 == s.n * s.n && s.n2 > 0 && s.g == s.n + 1
    && s.lambda == Lcm(p - 1, q - 1) && s.lambda > 0
    && Cong(s.lambda * s.mu, 1, s.n)
  }

  lemma KeySizes(s: Scheme, p: nat, q: nat)
    requires KeyOf(s, p, q)
    ensures s.n2 > 0 && s.n > 1 && s.n2 == s.n * s.n && s.n == p * q && s.g == s.n + 1
    ensures IsPrime(p) && IsPrime(q) && p > 2 && q > 2
  {
  }

  /** Key generation succeeds for all valid primes, with mu the inverse of lambda. */
  lemma GeneratedKey(p: nat, q: nat)
    requires ValidPrimes(p, q)
    ensures NewScheme(p, q).Some? && KeyOf(NewScheme(p, q).value, p, q)
  {
    hide Lcm, Coprime, Pow, IsPrime, ModInverse, L, Cong;
    Positive(p, q);
    Positive(p * q, p * q);
    var n: nat := p * q;
    var lambda := Lcm(p - 1, q - 1);
    assert n > 1 by { assert p * q > p * 1; }
    assert Cong(n + 1, 1 + n * 1, n * n) by { CongRefl(n + 1, n * n); }
    OnePlusPow(n, n + 1, 1, lambda);
    LRecovers(n, Pow(n + 1, lambda), 1 * lambda);
    LambdaCoprime(p, q);
    ReducedInverse(lambda, n);
  }

  /** The inverse of a residue is an inverse of the number. */
  lemma ReducedInverse(x: nat, n: nat)
    requires n > 1 && Coprime(x, n) && x > 0
    ensures ModInverse(x % n, n).Some? && Cong(x * ModInverse(x % n, n).value, 1, n)
  {
    var r := x % n;
    assert x == n * (x / n) + r;
    assert Coprime(r, n) by {
      forall d | d > 1 && Divides(d, r)
        ensures !Divides(d, n)
      {
        if Divides(d, n) {
          DividesLinear(d, n, r, x / n, 1);
        }
      }
    }
    if r == 0 {
      DividesBy(n, x, x / n);
      DividesBy(n, n, 1);
      assert false;
    }
    ModInverseMeaning(r, n);
    var y := ModInverse(r, n).value;
    CongMod(x, n);
    CongRefl(y, n);
    CongMul(x, r, y, y, n);
    CongTrans(x * y, r * y, 1, n);
  }

  /** The number `c` carries the plaintext `m`: c^lambda = 1 + n m lambda modulo n^2. */
  ghost predicate Carries(s: Scheme, c: nat, m: int) {
    Cong(Pow(c, s.lambda), 1 + s.n * (m * s.lambda), s.n * s.n)
  }

  lemma CarriesCong(s: Scheme, c: nat, d: nat, m: int)
    requires Carries(s, c, m) && Cong(d, c, s.n * s.n)
    ensures Carries(s, d, m)
  {
    CongPow(d, c, s.n * s.n, s.lambda);
    CongTrans(Pow(d, s.lambda), Pow(c, s.lambda), 1 + s.n * (m * s.lambda), s.n * s.n);
  }

  lemma CarriesReduced(s: Scheme, c: nat, m: int)
    requires Carries(s, c, m) && s.n2 == s.n * s.n && s.n2 > 0
    ensures Carries(s, c % s.n2, m)
  {
    CongMod(c, s.n2);
    CarriesCong(s, c, c % s.n2, m);
  }

  lemma CarriesProduct(s: Scheme, c: nat, d: nat, m: int, k: int)
    requires Carries(s, c, m) && Carries(s, d, k)
    ensures c * d >= 0 && Carries(s, c * d, m + k)
  {
    NatProduct(c, d);
    OnePlusMul(s.n, Pow(c, s.lambda), Pow(d, s.lambda), m * s.lambda, k * s.lambda);
    PowProduct(c, d, s.lambda);
    assert m * s.lambda + k * s.lambda == (m + k) * s.lambda;
  }

  lemma {:induction false} PowNonneg(c: nat, e: nat)
    ensures Pow(c, e) >= 0
  {
    if e > 0 {
      PowNonneg(c, e - 1);
      NatProduct(c, Pow(c, e - 1));
    }
  }

  lemma CarriesPower(s: Scheme, c: nat, m: int, e: nat)
    requires Carries(s, c, m)
    ensures Pow(c, e) >= 0 && Carries(s, Pow(c, e), m * e)
  {
    hide Pow;
    PowNonneg(c, e);
    OnePlusPow(s.n, Pow(c, s.lambda), m * s.lambda, e);
    PowMul(c, s.lambda, e);
    PowMul(c, e, s.lambda);
    assert s.lambda * e == e * s.lambda;
    assert (m * s.lambda) * e == (m * e) * s.lambda;
  }

  /** Whatever carries a plaintext is invertible, and its inverse carries the negation. */
  lemma CarriesInverse(s: Scheme, c: nat, m: int)
    requires Carries(s, c, m) && s.n2 == s.n * s.n && s.n2 > 0 && s.n > 1 && s.lambda > 0
    ensures c > 0 && ModInverse(c, s.n2).Some? && Carries(s, ModInverse(c, s.n2).value, -m)
  {
    hide ModInverse, Coprime;
    var x := m * s.lambda;
    Invertible(s.n, c, s.lambda, x);
    ModInverseMeaning(c, s.n2);
    var y := ModInverse(c, s.n2).value;
    InversePower(s.n, c, y, s.lambda, x);
    assert -m * s.lambda == -x;
  }

  lemma Invertible(n: nat, c: nat, e: nat, x: int)
    requires n > 1 && n * n > 0 && e > 0 && Cong(Pow(c, e), 1 + n * x, n * n)
    ensures c > 0 && Coprime(c, n * n)
  {
    var w := Pow(c, e - 1) * (1 + n * -x);
    CongRefl(1 + n * -x, n * n);
    OnePlusMul(n, Pow(c, e), 1 + n * -x, x, -x);
    assert Pow(c, e) * (1 + n * -x) == c * w;
    assert n * (x + -x) == 0;
    var k := Quotient(c * w, 1, n * n);
    assert c * w + (n * n) * -k == 1;
    OneDividesOnly(c, n * n, w, -k);
    NotZeroInverse(c, w, n, k);
  }

  lemma NotZeroInverse(c: int, w: int, n: int, k: int)
    requires n > 1 && c * w + (n * n) * -k == 1
    ensures c != 0
  {
    assert n * n >= n * 1;
    if (n * n) * -k == 1 {
      SmallMultiple(n * n, -k);
    }
  }

  lemma InversePower(n: nat, c: nat, y: nat, e: nat, x: int)
    requires n > 1 && Cong(Pow(c, e), 1 + n * x, n * n) && Cong(c * y, 1, n * n)
    ensures Cong(Pow(y, e), 1 + n * -x, n * n)
  {
    hide Pow, Cong;
    CongPow(c * y, 1, n * n, e);
    PowProduct(c, y, e);
    PowOne(e);
    InverseOfOnePlus(n, Pow(c, e), Pow(y, e), x);
  }

  /** The inverse of 1 + nx is 1 - nx modulo n^2. */
  lemma InverseOfOnePlus(n: int, a: int, b: int, x: int)
    requires Cong(a, 1 + n * x, n * n) && Cong(a * b, 1, n * n)
    ensures Cong(b, 1 + n * -x, n * n)
  {
    hide Cong;
    var m, t := n * n, 1 + n * -x;
    CongRefl(t, m);
    CongRefl(b, m);
    OnePlusMul(n, a, t, x, -x);
    assert n * (x + -x) == 0;
    CongMul(b, b, a * t, 1, m);
    CongSym(b * (a * t), b * 1, m);
    CongMul(a * b, 1, t, t, m);
    Reorder(a, b, t);
    CongTrans(b, b * (a * t), t, m);
  }

  lemma Reorder(a: int, b: int, t: int)
    ensures b * (a * t) == (a * b) * t
  {
  }

  // -------------------------------------------------------------------------------------------
  // Operations

  datatype EncryptedData = EncryptedData(ciphertext: seq<Byte>, context: string)

  /** c = g^m r^n mod n^2; a negative m takes powers of the inverse of g. */
  function Encrypt(s: Scheme, m: int, r: nat): Option<nat>
    requires s.n2 > 0
  {
    match ModExp(s.g, m, s.n2)
    case None => None
    case Some(gm) =>
      match ModExp(r, s.n, s.n2)
      case None => None
      case Some(rn) => (NatProduct(gm, rn); Some((gm * rn) % s.n2))
  }

  /** L(c^lambda mod n^2) * mu mod n */
  function Decrypt(s: Scheme, e: EncryptedData): Option<int>
    requires s.n2 > 0 && s.n > 0
  {
    match ModExp(SetBytes(e.ciphertext), s.lambda, s.n2)
    case None => None
    case Some(u) => Some((L(u, s.n) * s.mu) % s.n)
  }

  /** Multiplies the ciphertexts, if they have the same context. */
  function AddEncrypted(s: Scheme, a: EncryptedData, b: EncryptedData): Option<EncryptedData>
    requires s.n2 > 0
  {
    if a.context != b.context then None else
    NatProduct(SetBytes(a.ciphertext), SetBytes(b.ciphertext));
    Some(EncryptedData(Bytes((SetBytes(a.ciphertext) * SetBytes(b.ciphertext)) % s.n2), a.context))
  }

  /** Raises the ciphertext to the power k, which may be negative. */
  function MultiplyByConstant(s: Scheme, a: EncryptedData, k: int): Option<EncryptedData>
    requires s.n2 > 0
  {
    match ModExp(SetBytes(a.ciphertext), k, s.n2)
    case None => None
    case Some(c) => Some(EncryptedData(Bytes(c), a.context))
  }

  /** Decryption recovers the carried plaintext modulo n. */
  lemma DecryptCarried(s: Scheme, p: nat, q: nat, e: EncryptedData, m: int)
    requires KeyOf(s, p, q) && Carries(s, SetBytes(e.ciphertext), m)
    ensures Decrypt(s, e) == Some(m % s.n)
  {
    hide Lcm, Pow, SetBytes, ValidPrimes, L;
    var c := SetBytes(e.ciphertext);
    var x := m * s.lambda;
    LRecovers(s.n, Pow(c, s.lambda), x);
    Unmask(s.n, m, s.lambda, s.mu);
  }

  lemma Unmask(n: nat, m: int, lambda: int, mu: int)
    requires n > 0 && Cong(lambda * mu, 1, n)
    ensures ((m * lambda) % n * mu) % n == m % n
  {
    var x := m * lambda;
    CongMod(x, n);
    CongRefl(mu, n);
    CongMul(x % n, x, mu, mu, n);
    CongRefl(m, n);
    CongMul(m, m, lambda * mu, 1, n);
    assert x * mu == m * (lambda * mu);
    CongTrans((x % n) * mu, x * mu, m, n);
    CongSameMod((x % n) * mu, m, n);
  }

  lemma GeneratorCarriesOne(s: Scheme, p: nat, q: nat)
    requires KeyOf(s, p, q)
    ensures Carries(s, s.g, 1)
  {
    CongRefl(s.g, s.n * s.n);
    assert s.g == 1 + s.n * 1;
    OnePlusPow(s.n, s.g, 1, s.lambda);
  }

  /** The mask r^n carries nothing. */
  ghost predicate Vanishes(s: Scheme, r: nat) {
    Pow(r, s.n) >= 0 && Carries(s, Pow(r, s.n), 0)
  }

  /** For different primes every mask without a common factor with n carries nothing. */
  lemma CoprimeVanishes(s: Scheme, p: nat, q: nat, r: nat)
    requires KeyOf(s, p, q) && p != q && Coprime(r, s.n)
    ensures Vanishes(s, r)
  {
    hide Pow, Lcm, ValidPrimes, Coprime;
    PowNonneg(r, s.n);
    CarmichaelPower(p, q, r);
    var k := Quotient(Pow(r, s.lambda), 1, s.n);
    CongRefl(1 + s.n * k, s.n * s.n);
    OnePlusPow(s.n, Pow(r, s.lambda), k, s.n);
    assert 1 + s.n * (k * s.n) == 1 + (s.n * s.n) * k by { assert s.n * (k * s.n) == (s.n * s.n) * k; }
    CongBy(1 + s.n * (k * s.n), 1, s.n * s.n, k);
    PowMul(r, s.lambda, s.n);
    PowMul(r, s.n, s.lambda);
    assert s.lambda * s.n == s.n * s.lambda;
    CongTrans(Pow(Pow(r, s.n), s.lambda), 1 + s.n * (k * s.n), 1, s.n * s.n);
    assert s.n * (0 * s.lambda) == 0;
  }

  /** Exponentiation multiplies the carried plaintext, for negative exponents too. */
  lemma ExpCarries(s: Scheme, p: nat, q: nat, c: nat, m: int, k: int)
    requires KeyOf(s, p, q) && Carries(s, c, m)
    ensures ModExp(c, k, s.n2).Some? && Carries(s, ModExp(c, k, s.n2).value, m * k)
  {
    hide Pow, Lcm, ValidPrimes, Carries, ModInverse;
    if k >= 0 {
      CarriesPower(s, c, m, k);
      CarriesReduced(s, Pow(c, k), m * k);
    } else {
      CarriesInverse(s, c, m);
      var y := ModInverse(c, s.n2).value;
      CarriesPower(s, y, -m, -k);
      assert -m * -k == m * k;
      CarriesReduced(s, Pow(y, -k), m * k);
    }
  }

  /** Every plaintext, of either sign, can be encrypted under every mask that carries nothing. */
  lemma EncryptCarries(s: Scheme, p: nat, q: nat, m: int, r: nat)
    requires KeyOf(s, p, q) && Vanishes(s, r)
    ensures Encrypt(s, m, r).Some? && Carries(s, Encrypt(s, m, r).value, m)
  {
    hide Pow, Lcm, ValidPrimes, Carries, ModInverse;
    GeneratorCarriesOne(s, p, q);
    ExpCarries(s, p, q, s.g, 1, m);
    CarriesReduced(s, Pow(r, s.n), 0);
    var gm, rn := ModExp(s.g, m, s.n2).value, Pow(r, s.n) % s.n2;
    CarriesProduct(s, gm, rn, m, 0);
    CarriesReduced(s, gm * rn, m);
  }
}
