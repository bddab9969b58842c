/** The body of the ladder loop on arrays: the eighteen calls between the exchanges. */
module LadderStep {
  import opened Carry
  import opened Elements
  import opened Field
  import opened MontgomeryStep
  import opened Multiply
  import opened Rfc7748

  /** The state (x2, z2, x3, z3) that the arrays a, c, b, d hold. */
  ghost function State(a: array<int>, b: array<int>, c: array<int>, d: array<int>): Ladder
    reads a, b, c, d
  {
    Ladder(Fe(a), Fe(c), Fe(b), Fe(d))
  }

  ghost predicate AllReduced(a: array<int>, b: array<int>, c: array<int>, d: array<int>)
    reads a, b, c, d
  {
    Reduced(a) && Reduced(b) && Reduced(c) && Reduced(d)
  }

  /** Sums, differences, squares and cross products. */
  method FirstHalf(a: array<int>, b: array<int>, c: array<int>, d: array<int>, e: array<int>, f: array<int>)
    requires AllReduced(a, b, c, d) && e.Length == f.Length == 16
    requires a != b && a != c && a != d && a != e && a != f && b != c && b != d && b != e && b != f
    requires c != d && c != e && c != f && d != e && d != f && e != f
    modifies a, b, c, d, e, f
    ensures AllReduced(a, c, d, f)
    ensures var s := old(State(a, b, c, d));
            && Fe(d) == Mul(Add(s.x2, s.z2), Add(s.x2, s.z2))
            && Fe(f) == Mul(Sub(s.x2, s.z2), Sub(s.x2, s.z2))
            && Fe(a) == Mul(Add(s.x3, s.z3), Sub(s.x2, s.z2))
            && Fe(c) == Mul(Sub(s.x3, s.z3), Add(s.x2, s.z2))
  {
    hide IsReduced, IsLoose, Red, Fe, Add, Sub, Mul;
    AddLimbs(e, a, c);
    SubtractLimbs(a, a, c);
    AddLimbs(c, b, d);
    SubtractLimbs(b, b, d);
    MultiplyLimbs(d, e, e);
    MultiplyLimbs(f, a, a);
    MultiplyLimbs(a, c, a);
    MultiplyLimbs(c, b, e);
  }

  /** The new coordinates. */
  method SecondHalf(a: array<int>, b: array<int>, c: array<int>, d: array<int>, e: array<int>, f: array<int>,
                    a24: array<int>, nine: array<int>)
    requires AllReduced(a, c, d, f) && b.Length == e.Length == 16 && Reduced(a24) && Reduced(nine)
    requires a != b && a != c && a != d && a != e && a != f && b != c && b != d && b != e && b != f
    requires c != d && c != e && c != f && d != e && d != f && e != f
    requires a24 !in {a, b, c, d, e, f} && nine !in {a, b, c, d, e, f}
    requires Fe(a24) == 121665
    modifies a, b, c, d, e
    ensures AllReduced(a, b, c, d)
    ensures State(a, b, c, d) == Finish(Fe(nine), old(Fe(a)), old(Fe(c)), old(Fe(d)), old(Fe(f)))
  {
    hide IsReduced, IsLoose, Red, Fe, Add, Sub, Mul;
    AddLimbs(e, a, c);
    SubtractLimbs(a, a, c);
    MultiplyLimbs(b, a, a);
    SubtractLimbs(c, d, f);
    MultiplyLimbs(a, c, a24);
    AddLimbs(a, a, d);
    MultiplyLimbs(c, c, a);
    MultiplyLimbs(a, d, f);
    MultiplyLimbs(d, b, nine);
    MultiplyLimbs(b, e, e);
  }
}
