/** Fermat's little theorem, by way of the binomial theorem. */
module Fermat {
  import opened NumberTheory

  function Choose(n: nat, k: nat): nat {
    if k == 0 then 1 else if n == 0 then 0 else Choose(n - 1, k - 1) + Choose(n - 1, k)
  }

  lemma {:induction false} ChooseTooMany(n: nat, k: nat)
    requires k > n
    ensures Choose(n, k) == 0
  {
    if n > 0 {
      ChooseTooMany(n - 1, k - 1);
      ChooseTooMany(n - 1, k);
    }
  }

  lemma {:induction false} ChooseAll(n: nat)
    ensures Choose(n, n) == 1
  {
    if n > 0 {
      ChooseAll(n - 1);
      ChooseTooMany(n - 1, n);
    }
  }

  lemma {:induction false} ChooseOne(n: nat)
    ensures Choose(n, 1) == n
  {
    if n > 0 {
      ChooseOne(n - 1);
    }
  }

  lemma AbsorptionStep(n: int, k: int, a: int, b: int, c: int, d: int)
    requires (k - 1) * a == (n - 1) * c && k * b == (n - 1) * d && a == c + d
    ensures k * (a + b) == n * a
  {
    calc {
      k * (a + b);
      a + (k - 1) * a + k * b;
      a + (n - 1) * c + (n - 1) * d;
      a + (n - 1) * (c + d);
      n * a;
    }
  }

  lemma {:induction false} Absorption(n: nat, k: nat)
    requires n > 0 && k > 0
    ensures k * Choose(n, k) == n * Choose(n - 1, k - 1)
  {
    if k == 1 {
      ChooseOne(n);
    } else if n == 1 {
      ChooseTooMany(1, k);
      ChooseTooMany(0, k - 1);
    } else {
      Absorption(n - 1, k - 1);
      Absorption(n - 1, k);
      AbsorptionStep(n, k, Choose(n - 1, k - 1), Choose(n - 1, k), Choose(n - 2, k - 2), Choose(n - 2, k - 1));
    }
  }

  /** A prime divides its inner binomial coefficients. */
  lemma PrimeDividesChoose(p: nat, k: nat)
    requires IsPrime(p) && 0 < k < p
    ensures Divides(p, Choose(p, k))
  {
    hide Choose;
    Absorption(p, k);
    DividesBy(p, k * Choose(p, k), Choose(p - 1, k - 1));
    PrimeDividesProduct(p, k, Choose(p, k));
    if Divides(p, k) {
      DivisorBound(p, k);
    }
  }

  function Term(a: int, n: nat, k: nat): int {
    Choose(n, k) * Pow(a, k)
  }

  /** The first `k + 1` terms of the expansion of `(a + 1)^n`. */
  function Expansion(a: int, n: nat, k: nat): int {
    if k == 0 then 1 else Expansion(a, n, k - 1) + Term(a, n, k)
  }

  lemma TermArithmetic(a: int, c: int, d: int, x: int)
    ensures (c + d) * (a * x) == d * (a * x) + a * (c * x)
  {
    calc {
      (c + d) * (a * x);
      c * (a * x) + d * (a * x);
      a * (c * x) + d * (a * x);
    }
  }

  /** Pascal's rule, term by term. */
  lemma PascalTerm(a: int, n: nat, k: nat)
    requires n > 0 && k > 0
    ensures Term(a, n, k) == Term(a, n - 1, k) + a * Term(a, n - 1, k - 1)
  {
    TermArithmetic(a, Choose(n - 1, k - 1), Choose(n - 1, k), Pow(a, k - 1));
  }

  lemma Distribute(a: int, x: int, y: int)
    ensures a * (x + y) == a * x + a * y
  {
  }

  lemma TermZero(a: int, n: nat)
    ensures Term(a, n, 0) == 1
  {
  }

  lemma {:induction false} ExpansionStep(a: int, n: nat, k: nat)
    requires n > 0 && k > 0
    ensures Expansion(a, n, k) == Expansion(a, n - 1, k) + a * Expansion(a, n - 1, k - 1)
  {
    hide Term;
    PascalTerm(a, n, k);
    if k == 1 {
      TermZero(a, n - 1);
    } else {
      ExpansionStep(a, n, k - 1);
      Distribute(a, Expansion(a, n - 1, k - 2), Term(a, n - 1, k - 1));
    }
  }

  /** The binomial theorem. */
  lemma {:induction false} BinomialTheorem(a: int, n: nat)
    ensures Pow(a + 1, n) == Expansion(a, n, n)
  {
    if n > 0 {
      hide Choose;
      BinomialTheorem(a, n - 1);
      ExpansionStep(a, n, n);
      ChooseTooMany(n - 1, n);
      var e := Expansion(a, n - 1, n - 1);
      assert Term(a, n - 1, n) == 0;
      assert Expansion(a, n - 1, n) == e;
      assert (a + 1) * e == e + a * e;
    }
  }

  /** Modulo a prime only the outer terms are left. */
  lemma {:induction false} InnerTermsVanish(a: int, p: nat, k: nat)
    requires IsPrime(p) && k < p
    ensures Cong(Expansion(a, p, k), 1, p)
  {
    hide Choose;
    if k == 0 {
      CongRefl(1, p);
    } else {
      InnerTermsVanish(a, p, k - 1);
      PrimeDividesChoose(p, k);
      CongRefl(Pow(a, k), p);
      CongMul(Choose(p, k), 0, Pow(a, k), Pow(a, k), p);
      CongAdd(Expansion(a, p, k - 1), 1, Choose(p, k) * Pow(a, k), 0, p);
    }
  }

  lemma FreshmansDream(a: int, p: nat)
    requires IsPrime(p)
    ensures Cong(Pow(a + 1, p), Pow(a, p) + 1, p)
  {
    hide Choose, Pow, Cong;
    BinomialTheorem(a, p);
    InnerTermsVanish(a, p, p - 1);
    ChooseAll(p);
    assert Term(a, p, p) == Pow(a, p);
    CongRefl(Pow(a, p), p);
    CongAdd(Expansion(a, p, p - 1), 1, Pow(a, p), Pow(a, p), p);
  }

  lemma {:induction false} FermatPower(a: nat, p: nat)
    requires IsPrime(p)
    ensures Cong(Pow(a, p), a, p)
  {
    if a == 0 {
      assert Pow(0, p) == 0;
      CongRefl(0, p);
    } else {
      FermatPower(a - 1, p);
      FreshmansDream(a - 1, p);
      CongRefl(1, p);
      CongAdd(Pow(a - 1, p), a - 1, 1, 1, p);
      CongTrans(Pow(a, p), Pow(a - 1, p) + 1, a, p);
    }
  }

  /** Fermat's little theorem. */
  lemma FermatLittle(a: nat, p: nat)
    requires IsPrime(p) && !Divides(p, a)
    ensures Cong(Pow(a, p - 1), 1, p)
  {
    FermatPower(a, p);
    var k := Quotient(Pow(a, p), a, p);
    var x := Pow(a, p - 1) - 1;
    assert a * x == a * Pow(a, p - 1) - a;
    DividesBy(p, a * x, k);
    PrimeDividesProduct(p, a, x);
    var l := Cofactor(p, x);
    CongBy(Pow(a, p - 1), 1, p, l);
  }
}
