/** `Wireguard.invert`: the power p - 2 by square and multiply. */
module Invert {
  import opened Carry
  import opened Elements
  import opened Field
  import opened JsNumber
  import opened Multiply
  import opened Rfc7748

  lemma PowerRange(z: nat, n: nat)
    ensures Power(z, n) < P
  {
  }

  lemma Regroup3(x: int, y: int, z: int)
    ensures (y * z) * x == (x * y) * z && Red(y * z) * x == x * Red(y * z)
  {
  }

  lemma MulAssociative(x: int, y: int, z: int)
    ensures Mul(x, Mul(y, z)) == Mul(Mul(x, y), z)
  {
    RedMulLeft(x * y, z);
    RedMulLeft(y * z, x);
    Regroup3(x, y, z);
  }

  lemma {:induction false} PowerAdd(z: nat, m: nat, n: nat)
    requires z < P
    ensures Power(z, m + n) == Mul(Power(z, m), Power(z, n))
  {
    if m == 0 {
      PowerRange(z, n);
      RedSmall(Power(z, n));
    } else {
      PowerAdd(z, m - 1, n);
      assert Power(z, m + n) == Mul(z, Power(z, m - 1 + n));
      MulAssociative(z, Power(z, m - 1), Power(z, n));
    }
  }

  /** What the exponent lacks, once bits 253, ..., a have been read, because bits 4 and 2 were
      skipped. */
  function Skipped(a: nat): nat {
    if a > 4 then 0 else if a == 4 then 1 else if a == 3 then 2 else if a == 2 then 5 else if a == 1 then 10 else 20
  }

  lemma MorePow2(n: nat)
    ensures n >= 1 ==> Pow2(n) >= 2
    ensures n >= 8 ==> Pow2(n) >= 256
  {
    if n >= 8 {
      Pow2Mono(8, n);
      assert Pow2(8) == 256;
    }
  }

  /** The exponent reached when the loop variable has come down to a. */
  function Exponent(a: nat): nat
    requires a <= 254
  {
    MorePow2(255 - a);
    Pow2(255 - a) - 1 - Skipped(a)
  }

  lemma ExponentStep(a: nat)
    requires a < 254
    ensures Exponent(a) == 2 * Exponent(a + 1) + (if a == 2 || a == 4 then 0 else 1)
  {
    assert Pow2(255 - a) == 2 * Pow2(255 - (a + 1));
  }

  lemma Pow2Of255()
    ensures Pow2(255) == P + 19
  {
    hide Pow2;
    Pow2Words();
    Pow2Add(32, 32);
    Pow2Add(64, 64);
    Pow2Add(128, 64);
    Pow2Add(192, 32);
    Pow2Add(224, 31);
  }

  lemma ExponentEnds()
    ensures Exponent(254) == 1
    ensures Exponent(0) == P - 2
  {
    assert Pow2(1) == 2;
    Pow2Of255();
  }

  lemma PowerOne(z: nat)
    requires z < P
    ensures Power(z, 1) == z
  {
    assert Power(z, 0) == 1;
    RedSmall(z);
  }

  method SquareAndMultiply(c: array<int>, i: array<int>, ghost z: nat)
    requires c != i && Reduced(c) && Reduced(i) && Fe(c) == Fe(i) == z
    modifies c
    ensures Reduced(c) && Fe(c) == Power(z, P - 2)
  {
    hide IsReduced, IsLoose, Fe, Exponent, Pow2;
    ghost var zz := z;
    PowerOne(z);
    ExponentEnds();
    for a := 254 downto 0
      invariant Reduced(c) && Fe(c) == Power(z, Exponent(a))
      invariant Reduced(i) && Fe(i) == z
    {
      MultiplyLimbs(c, c, c);
      PowerAdd(z, Exponent(a + 1), Exponent(a + 1));
      if a != 2 && a != 4 {
        MultiplyLimbs(c, c, i);
        PowerAdd(z, 2 * Exponent(a + 1), 1);
      }
      ExponentStep(a);
    }
  }

  /** `invert`: o may be i. */
  method InvertLimbs(o: array<int>, i: array<int>)
    requires o.Length == 16 && Reduced(i)
    modifies o
    ensures Reduced(o)
    ensures Fe(o) == Power(old(Fe(i)), P - 2)
  {
    var c := new int[16](_ => 0);
    ghost var z, zs := Fe(i), i[..];
    for a := 0 to 16
      invariant fresh(c) && i[..] == zs
      invariant forall k :: 0 <= k < a ==> c[k] == zs[k]
    {
      c[a] := i[a];
    }
    assert c[..] == zs;
    ExponentEnds();
    PowerOne(z);
    SquareAndMultiply(c, i, z);
    for a := 0 to 16
      invariant forall k :: 0 <= k < a ==> o[k] == c[k]
      invariant Reduced(c) && Fe(c) == Power(z, P - 2)
    {
      o[a] := c[a];
    }
    assert o[..] == c[..];
  }
}
