/** Fermat's little theorem for every prime, and what it says about `invert`. */
module Fermat {
  import opened Field
  import opened Rfc7748

  predicate Divides(d: nat, n: int)
    requires d > 0
  {
    n % d == 0
  }

  ghost predicate IsPrime(p: nat) { 2 <= p && forall d :: 2 <= d < p ==> !Divides(d, p) }

  function Exp(z: int, n: nat): int { if n == 0 then 1 else z * Exp(z, n - 1) }

  function Choose(n: nat, k: nat): nat
  {
    if k == 0 then 1 else if n == 0 then 0 else Choose(n - 1, k - 1) + Choose(n - 1, k)
  }

  /** The first m terms of the binomial expansion of (1 + a)^n. */
  function Terms(n: nat, a: int, m: nat): int
  {
    if m == 0 then 0 else Terms(n, a, m - 1) + Choose(n, m - 1) * Exp(a, m - 1)
  }

  lemma {:induction false} ChooseBeyond(n: nat, k: nat)
    requires n < k
    ensures Choose(n, k) == 0
  {
    if n != 0 { ChooseBeyond(n - 1, k - 1); ChooseBeyond(n - 1, k); }
  }

  lemma {:induction false} ChooseAll(n: nat)
    ensures Choose(n, n) == 1
  {
    if n != 0 { ChooseAll(n - 1); ChooseBeyond(n - 1, n); }
  }

  lemma OneTerm(n: nat, a: int)
    ensures Terms(n, a, 1) == 1
  {
    assert Terms(n, a, 0) == 0 && Exp(a, 0) == 1;
  }

  lemma PascalStep(a: int, c: int, d: int, e: int, t: int)
    ensures (c + d) * (a * e) + a * t == d * (a * e) + a * (t + c * e)
  {
  }

  lemma {:induction false} PascalTerms(n: nat, a: int, m: nat)
    ensures Terms(n + 1, a, m + 1) == Terms(n, a, m + 1) + a * Terms(n, a, m)
  {
    if m == 0 {
      OneTerm(n, a);
      OneTerm(n + 1, a);
    } else {
      PascalTerms(n, a, m - 1);
      PascalStep(a, Choose(n, m - 1), Choose(n, m), Exp(a, m - 1), Terms(n, a, m - 1));
      assert Choose(n + 1, m) == Choose(n, m - 1) + Choose(n, m);
    }
  }

  lemma NoTermBeyond(n: nat, a: int)
    ensures Terms(n, a, n + 2) == Terms(n, a, n + 1)
  {
    ChooseBeyond(n, n + 1);
  }

  lemma BinomialStep(a: int, e: int)
    ensures e + a * e == (a + 1) * e
  {
  }

  lemma {:induction false} Binomial(n: nat, a: int)
    ensures Terms(n, a, n + 1) == Exp(a + 1, n)
  {
    hide Terms, Choose;
    if n == 0 {
      OneTerm(0, a);
    } else {
      Binomial(n - 1, a);
      PascalTerms(n - 1, a, n);
      NoTermBeyond(n - 1, a);
      BinomialStep(a, Exp(a + 1, n - 1));
    }
  }

  lemma AbsorbStep(n: int, k: int, x: int, y: int, u: int, v: int)
    requires u == x + y && (k - 1) * u == (n - 1) * x && k * v == (n - 1) * y
    ensures k * (u + v) == n * u
  {
    assert k * u == (k - 1) * u + u && n * u == (n - 1) * u + u;
    assert (n - 1) * u == (n - 1) * x + (n - 1) * y;
    assert k * (u + v) == k * u + k * v;
  }

  /** k C(n, k) = n C(n - 1, k - 1). */
  lemma {:induction false} Absorb(n: nat, k: nat)
    requires 1 <= n && 1 <= k
    ensures k * Choose(n, k) == n * Choose(n - 1, k - 1)
  {
    if n == 1 {
      if k == 1 {
        assert Choose(1, 1) == 1;
      } else {
        ChooseBeyond(1, k);
        ChooseBeyond(0, k - 1);
      }
    } else if k == 1 {
      Absorb(n - 1, 1);
      assert Choose(n, 1) == Choose(n - 1, 0) + Choose(n - 1, 1);
    } else {
      Absorb(n - 1, k - 1);
      Absorb(n - 1, k);
      AbsorbStep(n, k, Choose(n - 2, k - 2), Choose(n - 2, k - 1), Choose(n - 1, k - 1), Choose(n - 1, k));
    }
  }

  lemma Descend(p: int, k: int, c: int, m: int, d: int, r: int)
    requires p == d * k + r && k * c == m * p
    ensures r * c == (c - d * m) * p
  {
    assert r * c == (p - d * k) * c;
    assert (p - d * k) * c == p * c - d * (k * c);
    assert d * (k * c) == (d * m) * p;
    assert (c - d * m) * p == p * c - (d * m) * p;
  }

  /** Euclid's lemma for a factor below the prime, by descent on that factor. */
  lemma {:induction false} Euclid(p: nat, k: nat, c: int, m: int) returns (q: int)
    requires IsPrime(p) && 0 < k < p && k * c == m * p
    ensures c == q * p
    decreases k
  {
    if k == 1 {
      q := m;
    } else {
      var d, r := p / k, p % k;
      assert !Divides(k, p);
      assert p == d * k + r;
      Descend(p, k, c, m, d, r);
      q := Euclid(p, r, c, c - d * m);
    }
  }

  /** The binomial coefficients strictly inside row p are multiples of p. */
  lemma MiddleCoefficient(p: nat, k: nat) returns (q: int)
    requires IsPrime(p) && 0 < k < p
    ensures Choose(p, k) == q * p
  {
    Absorb(p, k);
    q := Euclid(p, k, Choose(p, k), Choose(p - 1, k - 1));
  }

  lemma FactorOut(q: int, c: int, e: int, p: int)
    ensures q * p + (c * p) * e == (q + c * e) * p
  {
  }

  /** So all but the first and the last term of (1 + a)^p vanish modulo p. */
  lemma {:induction false} MiddleTerms(p: nat, a: int, m: nat) returns (q: int)
    requires IsPrime(p) && 1 <= m <= p
    ensures Terms(p, a, m) == 1 + q * p
  {
    if m == 1 {
      q := 0;
      OneTerm(p, a);
    } else {
      var q0 := MiddleTerms(p, a, m - 1);
      var c := MiddleCoefficient(p, m - 1);
      q := q0 + c * Exp(a, m - 1);
      FactorOut(q0, c, Exp(a, m - 1), p);
    }
  }

  /** a^p = a modulo p. */
  lemma {:induction false} FermatPower(p: nat, a: nat) returns (q: int)
    requires IsPrime(p)
    ensures Exp(a, p) == a + q * p
  {
    if a == 0 {
      q := 0;
    } else {
      var q0 := FermatPower(p, a - 1);
      var q1 := MiddleTerms(p, a - 1, p);
      Binomial(p, a - 1);
      ChooseAll(p);
      q := q0 + q1;
      assert q * p == q0 * p + q1 * p;
    }
  }

  /** Fermat's little theorem: z^(p-1) = 1 modulo p for 0 < z < p. */
  lemma FermatLittle(p: nat, z: nat) returns (q: int)
    requires IsPrime(p) && 0 < z < p
    ensures Exp(z, p - 1) == 1 + q * p
  {
    var m := FermatPower(p, z);
    var e := Exp(z, p - 1);
    assert z * (e - 1) == m * p by { assert z * (e - 1) == z * e - z; }
    q := Euclid(p, z, e - 1, m);
  }

  lemma Swap(z: int, x: int, y: int)
    ensures z * x == x * z && z * y == y * z
  {
  }

  lemma {:induction false} PowerIsExp(z: nat, n: nat)
    ensures Power(z, n) == Red(Exp(z, n))
  {
    if n == 0 {
      RedSmall(1);
    } else {
      PowerIsExp(z, n - 1);
      RedMulLeft(Exp(z, n - 1), z);
      Swap(z, Red(Exp(z, n - 1)), Exp(z, n - 1));
    }
  }

  lemma PowerUnfold(z: nat, n: nat)
    ensures Power(z, n + 1) == Mul(z, Power(z, n))
  {
  }

  /** If p is prime, the power that `invert` computes is the inverse of every nonzero element. */
  lemma PowerInverts(z: nat)
    requires IsPrime(P) && 0 < z < P
    ensures Mul(z, Power(z, P - 2)) == 1
  {
    hide IsPrime, Power, Exp;
    var q := FermatLittle(P, z);
    assert Mul(z, Power(z, P - 2)) == Power(z, P - 1) by { PowerUnfold(z, P - 2); }
    PowerIsExp(z, P - 1);
    RedMultiple(1, q);
    RedSmall(1);
  }

  lemma RegroupThree(x: int, i: int, z: int)
    ensures (x * i) * z == (z * i) * x && (x * z) * i == (z * i) * x
  {
  }

  lemma CancelLeft(x: nat, i: nat, z: nat)
    requires x < P && Mul(z, i) == 1
    ensures Mul(Mul(x, i), z) == x && Mul(Mul(x, z), i) == x
  {
    RedMulLeft(x * i, z);
    RedMulLeft(x * z, i);
    RedMulLeft(z * i, x);
    RegroupThree(x, i, z);
    RedSmall(x);
  }

  /** The coordinate the RFC returns is then the only solution of q z2 = x2. */
  lemma QuotientIsUnique(x: nat, z: nat, q: nat)
    requires IsPrime(P) && 0 < z < P && x < P && q < P
    ensures q == Mul(x, Power(z, P - 2)) <==> Mul(q, z) == x
  {
    hide IsPrime, Power;
    var i := Power(z, P - 2);
    PowerInverts(z);
    if q == Mul(x, i) { CancelLeft(x, i, z); }
    if Mul(q, z) == x { CancelLeft(q, z, i); }
  }
}
