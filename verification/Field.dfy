/** Integers modulo p = 2^255 - 19, the field of curve25519 (section 4.1 of RFC 7748). */
module Field {
  import JsNumber

  const P := 0x7fffffffffffffffffffffffffffffffffffffffffffffffffffffffffffffed

  function Red(x: int): (r: nat)
    ensures r < P
  {
    x % P
  }

  function Add(x: int, y: int): nat { Red(x + y) }
  function Sub(x: int, y: int): nat { Red(x - y) }
  function Mul(x: int, y: int): nat { Red(x * y) }

  lemma RedSmall(x: int)
    requires 0 <= x < P
    ensures Red(x) == x
  {
  }

  lemma RedMultiple(x: int, k: int)
    ensures Red(x + k * P) == Red(x)
  {
    JsNumber.DivModUnique(x + k * P, x / P + k, x % P, P);
  }

  /** Operands may be reduced before a ring operation. */
  lemma RedAdd(x: int, y: int)
    ensures Add(Red(x), Red(y)) == Red(x + y)
    ensures Sub(Red(x), Red(y)) == Red(x - y)
  {
    RedMultiple(Red(x) + Red(y), x / P + y / P);
    RedMultiple(Red(x) - Red(y), x / P - y / P);
  }

  lemma RedMulLeft(x: int, y: int)
    ensures Red(Red(x) * y) == Red(x * y)
  {
    var q := x / P;
    assert x * y == Red(x) * y + (q * y) * P by {
      assert x == q * P + Red(x);
      assert (q * P) * y == (q * y) * P;
    }
    RedMultiple(Red(x) * y, q * y);
  }

  lemma RedMul(x: int, y: int)
    ensures Mul(Red(x), Red(y)) == Red(x * y)
  {
    RedMulLeft(x, y);
    RedMulLeft(y, Red(x));
    assert y * Red(x) == Red(x) * y && Red(y) * Red(x) == Red(x) * Red(y);
  }
}
