/** The Montgomery ladder of `Wireguard.generatePublicKey`: exchange, step, exchange back. */
module MontgomeryStep {
  import opened Field
  import opened Rfc7748

  /** Its second half: a and c hold the cross products, d and f the squares. */
  function Finish(nine: nat, a: nat, c: nat, d: nat, f: nat): Ladder {
    var e := Add(a, c);
    var g := Sub(a, c);
    var h := Sub(d, f);
    Ladder(Mul(d, f), Mul(h, Add(Mul(h, 121665), d)), Mul(e, e), Mul(Mul(g, g), nine))
  }

  /** The schedule of the source on values, in the order of its calls. */
  function Schedule(nine: nat, s: Ladder): Ladder {
    var e := Add(s.x2, s.z2);
    var a := Sub(s.x2, s.z2);
    var c := Add(s.x3, s.z3);
    var b := Sub(s.x3, s.z3);
    var d, f := Mul(e, e), Mul(a, a);
    Finish(nine, Mul(c, a), Mul(b, e), d, f)
  }

  lemma Commute(x: int, y: int)
    ensures Mul(x, y) == Mul(y, x)
  {
  }

  lemma SquareOfDifference(x: int, y: int)
    ensures Mul(Sub(x, y), Sub(x, y)) == Mul(Sub(y, x), Sub(y, x))
  {
    RedMul(x - y, x - y);
    RedMul(y - x, y - x);
    assert (x - y) * (x - y) == (y - x) * (y - x);
  }

  /** The 18 calls compute what the RFC writes down. */
  lemma ScheduleIsStep(x1: nat, s: Ladder)
    ensures Schedule(x1, s) == Step(x1, s)
  {
    var A, B := Add(s.x2, s.z2), Sub(s.x2, s.z2);
    var C, D := Add(s.x3, s.z3), Sub(s.x3, s.z3);
    var DA, CB := Mul(D, A), Mul(C, B);
    SquareOfDifference(CB, DA);
    Commute(Mul(Sub(CB, DA), Sub(CB, DA)), x1);
    Commute(Sub(Mul(A, A), Mul(B, B)), 121665);
  }

  /** One iteration of the source: exchange, step, exchange back. */
  function Iterate(bit: nat, x1: nat, s: Ladder): Ladder {
    CSwap(bit, Step(x1, CSwap(bit, s)))
  }

  function IterateAll(k: int, x1: nat, t: nat, s: Ladder): Ladder
  {
    if t == 0 then s else IterateAll(k, x1, t - 1, Iterate(BitOf(k, t - 1), x1, s))
  }

  /** Exchanging back at once, as the source does, and owing the exchange to the next step, as
      the RFC does, end in the same state. */
  lemma SwapsCompose(swap: nat, kt: nat, s: Ladder)
    requires swap <= 1 && kt <= 1
    ensures CSwap((swap + kt) % 2, s) == CSwap(kt, CSwap(swap, s))
  {
  }

  lemma {:induction false} DeferredSwap(k: int, x1: nat, t: nat, s: Ladder, swap: nat)
    requires swap <= 1
    ensures var (r, last) := Run(k, x1, t, s, swap);
            CSwap(last, r) == IterateAll(k, x1, t, CSwap(swap, s))
  {
    hide Step, CSwap;
    if t != 0 {
      var kt := BitOf(k, t - 1);
      SwapsCompose(swap, kt, s);
      DeferredSwap(k, x1, t - 1, Step(x1, CSwap((swap + kt) % 2, s)), kt);
    }
  }

  // ---------- the step against the curve ----------

  /** The coefficient of the curve y^2 = x^3 + A x^2 + x (section 4.1 of RFC 7748). */
  const CURVE_A := 486662

  lemma SmallConstant()
    ensures Red(121665) == 121665
  {
    RedSmall(121665);
  }

  lemma FourFactors(a: int, b: int)
    ensures (a * a) * (b * b) == (a * b) * (a * b)
  {
  }

  lemma SquareRing(x: int, z: int)
    ensures ((x + z) * (x + z)) * ((x - z) * (x - z)) == (x * x - z * z) * (x * x - z * z)
    ensures (x + z) * (x + z) - (x - z) * (x - z) == 4 * (x * z)
    ensures (x + z) * (x + z) + 121665 * (4 * (x * z)) == x * x + CURVE_A * (x * z) + z * z
  {
    var a, b := x + z, x - z;
    assert a * b == x * x - z * z;
    assert (a * a) * (b * b) == (a * b) * (a * b) by { FourFactors(a, b); }
  }

  lemma DoublingOnCurve(x: int, z: int)
    ensures var AA, BB := Mul(Add(x, z), Add(x, z)), Mul(Sub(x, z), Sub(x, z));
            var E := Sub(AA, BB);
            && Mul(AA, BB) == Red((x * x - z * z) * (x * x - z * z))
            && Mul(E, Add(AA, Mul(121665, E))) == Red(4 * (x * z) * (x * x + CURVE_A * (x * z) + z * z))
  {
    var a, b := x + z, x - z;
    var e := a * a - b * b;
    hide Red;
    RedMul(a, a);
    RedMul(b, b);
    RedAdd(a * a, b * b);
    RedMul(a * a, b * b);
    SmallConstant();
    RedMul(121665, e);
    RedAdd(a * a, 121665 * e);
    RedMul(e, a * a + 121665 * e);
    SquareRing(x, z);
  }

  lemma CrossRing(x: int, z: int, u: int, v: int)
    ensures (u - v) * (x + z) + (u + v) * (x - z) == 2 * (x * u - z * v)
    ensures (u - v) * (x + z) - (u + v) * (x - z) == 2 * (u * z - v * x)
  {
  }

  lemma Doubles(m: int, d: int)
    requires d == 2 * m
    ensures d * d == 4 * (m * m)
  {
  }

  lemma Commuted(x: int, y: int)
    ensures x * y == y * x
  {
  }

  lemma AdditionOnCurve(x1: nat, x: int, z: int, u: int, v: int)
    ensures var DA, CB := Mul(Sub(u, v), Add(x, z)), Mul(Add(u, v), Sub(x, z));
            var sum, diff := Add(DA, CB), Sub(DA, CB);
            && Mul(sum, sum) == Red(4 * ((x * u - z * v) * (x * u - z * v)))
            && Mul(x1, Mul(diff, diff)) == Red(x1 * (4 * ((u * z - v * x) * (u * z - v * x))))
  {
    hide Red;
    var p, q := (u - v) * (x + z), (u + v) * (x - z);
    RedMul(u - v, x + z);
    RedMul(u + v, x - z);
    RedAdd(p, q);
    RedMul(p + q, p + q);
    RedMul(p - q, p - q);
    RedMulLeft((p - q) * (p - q), x1);
    CrossRing(x, z, u, v);
    Doubles(x * u - z * v, p + q);
    Doubles(u * z - v * x, p - q);
    Commuted(Red((p - q) * (p - q)), x1);
    Commuted((p - q) * (p - q), x1);
  }

  /** The step of the RFC is the doubling and the differential addition of x-coordinates on that
      curve, as polynomials modulo p. */
  lemma StepIsOnCurve(x1: nat, s: Ladder)
    ensures var (x, z, u, v) := (s.x2 as int, s.z2 as int, s.x3 as int, s.z3 as int);
            var r := Step(x1, s);
            && r.x2 == Red((x * x - z * z) * (x * x - z * z))
            && r.z2 == Red(4 * (x * z) * (x * x + CURVE_A * (x * z) + z * z))
            && r.x3 == Red(4 * ((x * u - z * v) * (x * u - z * v)))
            && r.z3 == Red(x1 * (4 * ((u * z - v * x) * (u * z - v * x))))
  {
    hide Red, Add, Sub, Mul;
    DoublingOnCurve(s.x2, s.z2);
    AdditionOnCurve(x1, s.x2, s.z2, s.x3, s.z3);
  }
}
