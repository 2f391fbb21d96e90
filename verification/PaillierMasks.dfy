/** Exactly which masks and keys decrypt to what was encrypted. The code draws a mask below n and two
    primes without looking for common factors. */
module PaillierMasks {
  import opened Numbers
  import opened NumberTheory
  import opened Fermat
  import opened BigBytes
  import opened Paillier

  /** Encryption under this mask and decryption return the plaintext. */
  ghost predicate Recovers(s: Scheme, m: nat, r: nat)
    requires s.n2 > 0 && s.n > 0
  {
    && Encrypt(s, m, r).Some?
    && Decrypt(s, EncryptedData(Bytes(Encrypt(s, m, r).value), "bid_v1")) == Some(m)
  }

  /** The mask serves every plaintext below n. */
  ghost predicate MaskWorks(s: Scheme, r: nat)
    requires s.n2 > 0 && s.n > 0
  {
    forall m: nat :: m < s.n ==> Recovers(s, m, r)
  }

  lemma VanishingMaskWorks(s: Scheme, p: nat, q: nat, r: nat)
    requires KeyOf(s, p, q) && Vanishes(s, r)
    ensures s.n2 > 0 && s.n > 0 && MaskWorks(s, r)
  {
    hide KeyOf, Vanishes, Carries, Encrypt, Decrypt, Bytes, SetBytes;
    KeySizes(s, p, q);
    forall m: nat | m < s.n
      ensures Recovers(s, m, r)
    {
      EncryptCarries(s, p, q, m, r);
      var c := Encrypt(s, m, r).value;
      BytesRoundTrip(c);
      DecryptCarried(s, p, q, EncryptedData(Bytes(c), "bid_v1"), m);
      DivModUnique(m, s.n, 0, m);
    }
  }

  // -------------------------------------------------------------------------------------------
  // Masks that share a factor with n

  lemma {:induction false} PowerDivisible(a: int, r: int, e: nat)
    requires Divides(a, r) && e > 0
    ensures Divides(a, Pow(r, e))
  {
    var k := Cofactor(a, r);
    assert Pow(r, e) == r * Pow(r, e - 1);
    assert (a * k) * Pow(r, e - 1) == a * (k * Pow(r, e - 1));
    DividesBy(a, Pow(r, e), k * Pow(r, e - 1));
  }

  /** Encryption only depends on g^m modulo n^2. */
  lemma EncryptMod(s: Scheme, m: nat, r: nat, x: nat)
    requires s.n2 > 0 && Cong(Pow(s.g, m), x, s.n2)
    ensures x * Pow(r, s.n) >= 0 && Encrypt(s, m, r) == Some((x * Pow(r, s.n)) % s.n2)
  {
    hide Pow;
    var gm, rn := Pow(s.g, m) % s.n2, Pow(r, s.n) % s.n2;
    PowNonneg(r, s.n);
    NatProduct(x, Pow(r, s.n));
    NatProduct(gm, rn);
    CongMod(Pow(s.g, m), s.n2);
    CongTrans(gm, Pow(s.g, m), x, s.n2);
    CongMod(Pow(r, s.n), s.n2);
    CongMul(gm, x, rn, Pow(r, s.n), s.n2);
    CongSameMod(gm * rn, x * Pow(r, s.n), s.n2);
  }

  lemma CollisionArithmetic(a: int, b: int, k: int)
    ensures var n := a * b; (1 + n * b) * (a * k) == a * k + (n * n) * k
  {
    var n := a * b;
    calc {
      (1 + n * b) * (a * k);
      a * k + (n * b) * (a * k);
      { assert (n * b) * (a * k) == n * ((a * b) * k); }
      a * k + n * (n * k);
      a * k + (n * n) * k;
    }
  }

  /** Under a mask divisible by one of the primes, the other prime encrypts like zero. */
  lemma MaskCollision(s: Scheme, a: nat, b: nat, r: nat)
    requires s.n == a * b && s.n > 1 && s.n2 == s.n * s.n && s.n2 > 0 && s.g == s.n + 1 && Divides(a, r)
    ensures Encrypt(s, b, r).Some? && Encrypt(s, b, r) == Encrypt(s, 0, r)
  {
    hide Pow, Encrypt, Divides, Cong;
    var R := Pow(r, s.n);
    assert Pow(s.g, 0) == 1 by { PowZero(s.g); }
    CongRefl(1, s.n2);
    EncryptMod(s, 0, r, 1);
    CongRefl(s.g, s.n * s.n);
    OnePlusPow(s.n, s.g, 1, b);
    NatProduct(s.n, b);
    assert 1 * b == b;
    EncryptMod(s, b, r, 1 + s.n * b);
    PowerDivisible(a, r, s.n);
    var k := Cofactor(a, R);
    CollisionArithmetic(a, b, k);
    CongBy((1 + s.n * b) * R, R, s.n2, k);
    CongSameMod((1 + s.n * b) * R, R, s.n2);
  }

  lemma PowZero(b: int)
    ensures Pow(b, 0) == 1
  {
  }

  lemma CollidingMaskFails(s: Scheme, a: nat, b: nat, r: nat)
    requires s.n == a * b && s.n > 1 && s.n2 == s.n * s.n && s.n2 > 0 && s.g == s.n + 1 && Divides(a, r)
    requires a > 1 && b > 1
    ensures !MaskWorks(s, r)
  {
    hide Encrypt, Decrypt, Divides;
    MaskCollision(s, a, b, r);
    assert b < s.n by { assert a * b > 1 * b; }
    assert !(Recovers(s, 0, r) && Recovers(s, b, r));
  }

  lemma SharedFactorFails(s: Scheme, p: nat, q: nat, r: nat)
    requires KeyOf(s, p, q) && !Coprime(r, s.n)
    ensures s.n2 > 0 && s.n > 0 && !MaskWorks(s, r)
  {
    hide KeyOf, Coprime, MaskWorks, Divides;
    KeySizes(s, p, q);
    if !Divides(p, r) && !Divides(q, r) {
      CoprimeToProduct(p, q, r);
    }
    if Divides(p, r) {
      CollidingMaskFails(s, p, q, r);
    } else {
      assert p * q == q * p;
      CollidingMaskFails(s, q, p, r);
    }
  }

  /** For two different primes, a mask serves every plaintext if and only if it shares no factor with
      n. */
  lemma MaskExactly(s: Scheme, p: nat, q: nat, r: nat)
    requires KeyOf(s, p, q) && p != q
    ensures s.n2 > 0 && s.n > 0 && (MaskWorks(s, r) <==> Coprime(r, s.n))
  {
    hide KeyOf, Coprime, MaskWorks, Vanishes;
    KeySizes(s, p, q);
    if Coprime(r, s.n) {
      CoprimeVanishes(s, p, q, r);
      VanishingMaskWorks(s, p, q, r);
    } else {
      SharedFactorFails(s, p, q, r);
    }
  }

  // -------------------------------------------------------------------------------------------
  // The same prime twice

  lemma CubeOfTwo(p: int, c: int, a: int)
    ensures (p * c) * ((p * a) * (p * a)) == (p * p * p) * (c * (a * a))
  {
    calc {
      (p * c) * ((p * a) * (p * a));
      { Regroup(p, a, p, a); }
      (p * c) * ((p * p) * (a * a));
      { Regroup(p, c, p * p, a * a); }
      (p * (p * p)) * (c * (a * a));
      (p * p * p) * (c * (a * a));
    }
  }

  lemma CubeOfThree(p: int, a: int, x: int, c: int)
    ensures c * ((p * a) * ((p * a) * ((p * a) * x))) == (p * p * p) * (c * (a * (a * (a * x))))
  {
    calc {
      c * ((p * a) * ((p * a) * ((p * a) * x)));
      { assert (p * a) * x == p * (a * x); }
      c * ((p * a) * ((p * a) * (p * (a * x))));
      { assert (p * a) * (p * (a * x)) == p * p * (a * (a * x)); }
      c * ((p * a) * (p * p * (a * (a * x))));
      { assert (p * a) * (p * p * (a * (a * x))) == p * p * p * (a * (a * (a * x))); }
      c * (p * p * p * (a * (a * (a * x))));
      (p * p * p) * (c * (a * (a * (a * x))));
    }
  }

  /** The terms of (1 + pa)^p from the third on vanish modulo p^3. */
  lemma TermsVanish(p: nat, a: int, k: nat)
    requires IsPrime(p) && p > 2 && 2 <= k <= p
    ensures Divides(p * p * p, Term(p * a, p, k))
  {
    hide Choose, Divides, IsPrime;
    var y := p * a;
    if k == 2 {
      PrimeDividesChoose(p, 2);
      var c := Cofactor(p, Choose(p, 2));
      assert Pow(y, 2) == y * y by { assert Pow(y, 1) == y; }
      CubeOfTwo(p, c, a);
      DividesBy(p * p * p, Term(y, p, k), c * (a * a));
    } else {
      var x := Pow(y, k - 3);
      assert Pow(y, k) == y * (y * (y * x)) by { assert Pow(y, k - 1) == y * Pow(y, k - 2) && Pow(y, k - 2) == y * x; }
      CubeOfThree(p, a, x, Choose(p, k));
      DividesBy(p * p * p, Term(y, p, k), Choose(p, k) * (a * (a * (a * x))));
    }
  }

  lemma {:induction false} ExpansionModCube(p: nat, a: int, k: nat)
    requires IsPrime(p) && p > 2 && 1 <= k <= p
    ensures Cong(Expansion(p * a, p, k), 1 + (p * p) * a, p * p * p)
  {
    hide Choose, IsPrime, Cong;
    if k == 1 {
      ChooseOne(p);
      assert Pow(p * a, 1) == p * a;
      assert p * (p * a) == (p * p) * a;
      CongRefl(1 + (p * p) * a, p * p * p);
    } else {
      hide Term;
      ExpansionModCube(p, a, k - 1);
      TermsVanish(p, a, k);
      CongAdd(Expansion(p * a, p, k - 1), 1 + (p * p) * a, Term(p * a, p, k), 0, p * p * p);
    }
  }

  /** (1 + pa)^p = 1 + p^2 t where t is divisible by p exactly if a is. */
  lemma PrimePower(p: nat, a: int) returns (t: int)
    requires IsPrime(p) && p > 2
    ensures Pow(1 + p * a, p) == 1 + (p * p) * t && (Divides(p, t) <==> Divides(p, a))
  {
    hide Pow, Expansion, IsPrime, Divides;
    BinomialTheorem(p * a, p);
    ExpansionModCube(p, a, p);
    var u := Quotient(Expansion(p * a, p, p), 1 + (p * p) * a, p * p * p);
    t := a + p * u;
    SquareTimes(p, a, u);
    DividesBy(p, p * u, u);
    if Divides(p, a) {
      DividesLinear(p, a, p * u, 1, 1);
    }
    if Divides(p, t) {
      DividesLinear(p, t, p * u, 1, -1);
    }
  }

  lemma SquareTimes(p: int, a: int, u: int)
    ensures 1 + (p * p) * a + (p * p * p) * u == 1 + (p * p) * (a + p * u)
  {
    assert (p * p) * (p * u) == (p * p * p) * u;
  }

  lemma LcmSame(a: nat)
    requires a > 0
    ensures Lcm(a, a) == a
  {
    assert a % a == 0;
    assert ExtGcd(a, 0) == (a, 1, 0);
    assert Gcd(a, a) == a;
    DivModUnique(a * a, a, a, 0);
  }

  /** What r^n raised to lambda is when both primes are p: 1 + n(tp) modulo n^2, where p divides t exactly
      if r^(p - 1) is 1 modulo p^2. */
  lemma MaskPower(s: Scheme, p: nat, r: nat) returns (t: int)
    requires KeyOf(s, p, p) && !Divides(p, r)
    ensures Cong(Pow(Pow(r, s.n), s.lambda), 1 + s.n * (t * p), s.n * s.n)
    ensures Divides(p, t) <==> Cong(Pow(r, p - 1), 1, p * p)
  {
    hide Pow, Divides, Lcm, IsPrime;
    KeySizes(s, p, p);
    LcmSame(p - 1);
    FermatLittle(r, p);
    var a := Quotient(Pow(r, p - 1), 1, p);
    t := PrimePower(p, a);
    SquareCong(p, a);
    hide Cong;
    CongRefl(1 + s.n * t, s.n * s.n);
    OnePlusPow(s.n, Pow(Pow(r, p - 1), p), t, p);
    Exponents(r, p);
  }

  lemma SquareCong(p: int, a: int)
    requires p > 0
    ensures Cong(1 + p * a, 1, p * p) <==> Divides(p, a)
  {
    if Cong(1 + p * a, 1, p * p) {
      var k := Quotient(1 + p * a, 1, p * p);
      assert p * (a - p * k) == 0;
      SmallMultiple(p, a - p * k);
      DividesBy(p, a, k);
    }
    if Divides(p, a) {
      var k := Cofactor(p, a);
      assert p * (p * k) == (p * p) * k;
      CongBy(1 + p * a, 1, p * p, k);
    }
  }

  lemma Exponents(r: nat, p: nat)
    requires p > 0
    ensures Pow(Pow(r, p * p), p - 1) == Pow(Pow(Pow(r, p - 1), p), p)
  {
    hide Pow;
    PowMul(r, p * p, p - 1);
    PowMul(r, p - 1, p);
    PowMul(r, (p - 1) * p, p);
    assert (p * p) * (p - 1) == ((p - 1) * p) * p;
  }

  lemma DivisibleVanishes(s: Scheme, p: nat, r: nat, t: int)
    requires s.n == p * p && Divides(p, t) && Cong(Pow(Pow(r, s.n), s.lambda), 1 + s.n * (t * p), s.n * s.n)
    ensures Vanishes(s, r)
  {
    hide Pow;
    PowNonneg(r, s.n);
    var w := Cofactor(p, t);
    assert t * p == s.n * w by { assert (p * w) * p == (p * p) * w; }
    assert s.n * (s.n * w) == (s.n * s.n) * w;
    CongBy(1 + s.n * (t * p), 1, s.n * s.n, w);
    CongTrans(Pow(Pow(r, s.n), s.lambda), 1 + s.n * (t * p), 1, s.n * s.n);
    assert s.n * (0 * s.lambda) == 0;
  }

  lemma UnmaskZero(n: nat, x: int, lambda: int, mu: int)
    requires n > 0 && Cong(lambda * mu, 1, n) && ((x % n) * mu) % n == 0
    ensures x % n == 0
  {
    var y := x % n;
    assert y * mu == n * ((y * mu) / n);
    var k := (y * mu) / n;
    CongBy(y * mu, 0, n, k);
    CongRefl(lambda, n);
    CongMul(lambda, lambda, y * mu, 0, n);
    CongRefl(y, n);
    CongMul(y, y, lambda * mu, 1, n);
    assert lambda * (y * mu) == y * (lambda * mu);
    CongSym(y * (lambda * mu), y * 1, n);
    CongTrans(y, y * (lambda * mu), 0, n);
    CongSameMod(y, 0, n);
    DivModUnique(0, n, 0, 0);
    DivModUnique(y, n, 0, y);
  }

  lemma NotZero(p: nat, t: int)
    requires p > 1 && !Divides(p, t) && p * p > 0
    ensures (t * p) % (p * p) != 0
  {
    if (t * p) % (p * p) == 0 {
      var k := (t * p) / (p * p);
      assert t * p == (p * p) * k;
      assert p * (t - p * k) == 0;
      SmallMultiple(p, t - p * k);
      DividesBy(p, t, k);
    }
  }

  /** Zero encrypted under such a mask decrypts to something else. */
  lemma ZeroIsLost(s: Scheme, p: nat, r: nat, t: int)
    requires KeyOf(s, p, p) && !Divides(p, t) && s.n2 > 0 && s.n > 0
    requires Cong(Pow(Pow(r, s.n), s.lambda), 1 + s.n * (t * p), s.n * s.n)
    ensures !Recovers(s, 0, r)
  {
    hide Pow, Divides, Bytes, SetBytes, L, Encrypt, Lcm, ValidPrimes, Cong;
    KeySizes(s, p, p);
    var R, x := Pow(r, s.n), t * p;
    PowNonneg(r, s.n);
    PowZero(s.g);
    CongRefl(1, s.n2);
    EncryptMod(s, 0, r, 1);
    var c := R % s.n2;
    assert 1 * R == R;
    CongMod(R, s.n2);
    CongPow(c, R, s.n * s.n, s.lambda);
    CongTrans(Pow(c, s.lambda), Pow(R, s.lambda), 1 + s.n * x, s.n * s.n);
    BytesRoundTrip(c);
    LRecovers(s.n, Pow(c, s.lambda), x);
    NotZero(p, t);
    if ((x % s.n) * s.mu) % s.n == 0 {
      UnmaskZero(s.n, x, s.lambda, s.mu);
    }
  }

  /** If one prime p is drawn twice, a mask serves every plaintext if and only if it shares no factor with n
      and r^(p - 1) is 1 even modulo p^2. */
  lemma MaskExactlyTwice(s: Scheme, p: nat, r: nat)
    requires KeyOf(s, p, p)
    ensures s.n2 > 0 && s.n > 0
    ensures MaskWorks(s, r) <==> Coprime(r, s.n) && Cong(Pow(r, p - 1), 1, p * p)
  {
    hide KeyOf, Coprime, Cong, Vanishes, Pow, Divides, Recovers;
    KeySizes(s, p, p);
    if Coprime(r, s.n) {
      NoPrimeFactor(r, p, p);
      var t := MaskPower(s, p, r);
      if Divides(p, t) {
        DivisibleVanishes(s, p, r, t);
        VanishingMaskWorks(s, p, p, r);
      } else {
        ZeroIsLost(s, p, r, t);
      }
    } else {
      SharedFactorFails(s, p, p, r);
    }
  }

  lemma NotDividesNext(p: nat)
    requires p > 1
    ensures !Divides(p, p + 1) && !Divides(p, p - 1)
  {
    if Divides(p, p + 1) {
      var k := Cofactor(p, p + 1);
      assert p * (k - 1) == 1;
      SmallMultiple(p, k - 1);
    }
    if Divides(p, p - 1) {
      DivisorBound(p, p - 1);
    }
  }

  /** The mask p + 1 shares no factor with n and does not serve every plaintext. */
  lemma EqualPrimesFail(s: Scheme, p: nat)
    requires KeyOf(s, p, p)
    ensures s.n2 > 0 && s.n > 0 && Coprime(p + 1, s.n) && !MaskWorks(s, p + 1)
  {
    hide KeyOf, Coprime, Divides, Pow, MaskWorks, Cong;
    KeySizes(s, p, p);
    NotDividesNext(p);
    CoprimeToProduct(p, p, p + 1);
    MaskExactlyTwice(s, p, p + 1);
    CongRefl(p + 1, p * p);
    OnePlusPow(p, p + 1, 1, p - 1);
    SquareCong(p, 1 * (p - 1));
    if Cong(Pow(p + 1, p - 1), 1, p * p) {
      CongSym(Pow(p + 1, p - 1), 1 + p * (1 * (p - 1)), p * p);
      CongTrans(1 + p * (1 * (p - 1)), Pow(p + 1, p - 1), 1, p * p);
    }
  }

  /** A key works under all masks that share no factor with n if and only if its primes differ. */
  lemma KeyExactly(s: Scheme, p: nat, q: nat)
    requires KeyOf(s, p, q)
    ensures s.n2 > 0 && s.n > 0
    ensures (forall r: nat :: Coprime(r, s.n) ==> MaskWorks(s, r)) <==> p != q
  {
    hide KeyOf, Coprime, MaskWorks;
    KeySizes(s, p, q);
    if p == q {
      EqualPrimesFail(s, p);
    } else {
      forall r: nat | Coprime(r, s.n)
        ensures MaskWorks(s, r)
      {
        MaskExactly(s, p, q, r);
      }
    }
  }

  /** A mask serves every plaintext if and only if it carries nothing, which is what the laws of
      encrypted computations ask of masks. */
  lemma WorksIsVanishes(s: Scheme, p: nat, q: nat, r: nat)
    requires KeyOf(s, p, q)
    ensures s.n2 > 0 && s.n > 0 && (MaskWorks(s, r) <==> Vanishes(s, r))
  {
    hide KeyOf, Coprime, MaskWorks, Vanishes, Cong, Pow, Divides;
    KeySizes(s, p, q);
    if Vanishes(s, r) {
      VanishingMaskWorks(s, p, q, r);
    } else if p != q {
      MaskExactly(s, p, q, r);
      if Coprime(r, s.n) {
        CoprimeVanishes(s, p, q, r);
      }
    } else {
      MaskExactlyTwice(s, p, r);
      if Coprime(r, s.n) {
        NoPrimeFactor(r, p, p);
        var t := MaskPower(s, p, r);
        if Divides(p, t) {
          DivisibleVanishes(s, p, r, t);
        }
      }
    }
  }
}
