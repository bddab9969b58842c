/** Numbers as ECMA-262 computes with them: doubles that hold integers, and the
    operators that coerce them to 32-bit integers (sections 7.1.6, 7.1.7 and 13.12). */
module JsNumber {

  const TWO_32 := 0x1_0000_0000
  const MAX_EXACT := 0x20_0000_0000_0000

  /** The result of a double operation whose exact value is the integer x. Below 2^53 no
      rounding happens; the precondition makes the verifier show that at every use. */
  function Double(x: int): int
    requires -MAX_EXACT <= x <= MAX_EXACT
  {
    x
  }

  function ToUint32(x: int): int { x % TWO_32 }

  function ToInt32(x: int): int {
    var m := x % TWO_32;
    if m >= 0x8000_0000 then m - TWO_32 else m
  }

  /** What a Uint8Array stores when x is assigned to an element. */
  function ToUint8(x: int): (r: nat) ensures r < 256 { x % 256 }

  function Pow2(n: nat): (r: nat)
    ensures r >= 1
  {
    if n == 0 then 1 else 2 * Pow2(n - 1)
  }

  datatype BitOp = AndOp | OrOp | XorOp {
    function Apply(p: nat, q: nat): (r: nat)
      requires p <= 1 && q <= 1
      ensures r <= 1
    {
      match this
      case AndOp => if p == 1 && q == 1 then 1 else 0
      case OrOp => if p == 1 || q == 1 then 1 else 0
      case XorOp => if p != q then 1 else 0
    }
  }

  /** The operator applied to the n low bits of x and y. */
  function Bits(op: BitOp, x: nat, y: nat, n: nat): nat
  {
    if n == 0 then 0 else op.Apply(x % 2, y % 2) + 2 * Bits(op, x / 2, y / 2, n - 1)
  }

  function Bitwise(op: BitOp, x: int, y: int): int {
    ToInt32(Bits(op, ToUint32(x), ToUint32(y), 32))
  }

  function And(x: int, y: int): int { Bitwise(AndOp, x, y) }
  function Or(x: int, y: int): int { Bitwise(OrOp, x, y) }
  function Xor(x: int, y: int): int { Bitwise(XorOp, x, y) }
  function Not(x: int): int { -ToInt32(x) - 1 }
  function Shl(x: int, k: nat): int requires k < 32 { ToInt32(ToInt32(x) * Pow2(k)) }
  function Shr(x: int, k: nat): int requires k < 32 { ToInt32(x) / Pow2(k) }
  function Ushr(x: int, k: nat): int requires k < 32 { ToUint32(x) / Pow2(k) }

  // ---------- powers of two ----------

  lemma {:induction false} Pow2Add(m: nat, n: nat)
    ensures Pow2(m + n) == Pow2(m) * Pow2(n)
  {
    if m != 0 {
      Pow2Add(m - 1, n);
      assert Pow2(m + n) == 2 * Pow2(m - 1 + n);
    }
  }

  lemma MulAway(d: int, m: int)
    requires 0 < m
    ensures d >= 1 ==> d * m >= m
    ensures d <= -1 ==> d * m <= -m
  {
  }

  /** Division undoes a product, for any sign of q. */
  lemma DivModUnique(x: int, q: int, r: int, m: int)
    requires 0 < m && 0 <= r < m && x == q * m + r
    ensures x / m == q && x % m == r
  {
    var d := x / m - q;
    assert x == x / m * m + x % m;
    assert d * m == r - x % m by { assert x / m * m - q * m == d * m; }
    MulAway(d, m);
  }

  /** Taking k+1 bits is taking the low bit and then k bits of the half. */
  lemma ModPow2Step(x: int, k: nat)
    ensures x % Pow2(k + 1) == x % 2 + 2 * (x / 2 % Pow2(k))
    ensures x / Pow2(k + 1) == x / 2 / Pow2(k)
  {
    var h, m := x / 2, Pow2(k);
    var q, r := h / m, h % m;
    assert h == q * m + r;
    assert x == 2 * h + x % 2;
    assert x == q * (2 * m) + (x % 2 + 2 * r) by { assert 2 * (q * m) == q * (2 * m); }
    DivModUnique(x, q, x % 2 + 2 * r, 2 * m);
  }

  // ---------- bitwise operators as arithmetic ----------

  lemma {:induction false} BitsBound(op: BitOp, x: nat, y: nat, n: nat)
    ensures Bits(op, x, y, n) < Pow2(n)
  {
    if n != 0 { BitsBound(op, x / 2, y / 2, n - 1); }
  }

  /** Prepending one bit on each side. */
  lemma BitsCons(op: BitOp, p: nat, q: nat, x: nat, y: nat, n: nat)
    requires p <= 1 && q <= 1
    ensures Bits(op, p + 2 * x, q + 2 * y, n + 1) == op.Apply(p, q) + 2 * Bits(op, x, y, n)
  {
    assert (p + 2 * x) % 2 == p && (p + 2 * x) / 2 == x;
    assert (q + 2 * y) % 2 == q && (q + 2 * y) / 2 == y;
  }

  lemma AndMaskStep(x: nat, p: nat, h: nat, k: nat, n: nat)
    requires x == p + 2 * h && p <= 1
    requires Bits(AndOp, h, Pow2(k) - 1, n) == h % Pow2(k)
    ensures Bits(AndOp, x, Pow2(k + 1) - 1, n + 1) == x % Pow2(k + 1)
  {
    BitsCons(AndOp, p, 1, h, Pow2(k) - 1, n);
    ModPow2Step(x, k);
  }

  lemma {:induction false} AndZeroBits(x: nat, n: nat)
    ensures Bits(AndOp, x, 0, n) == 0
  {
    if n != 0 { AndZeroBits(x / 2, n - 1); }
  }

  lemma {:induction false} AndMaskBits(x: nat, k: nat, n: nat)
    requires k <= n
    ensures Bits(AndOp, x, Pow2(k) - 1, n) == x % Pow2(k)
  {
    if k == 0 {
      AndZeroBits(x, n);
    } else {
      AndMaskBits(x / 2, k - 1, n - 1);
      AndMaskStep(x, x % 2, x / 2, k - 1, n - 1);
    }
  }

  lemma {:induction false} BitsCommute(op: BitOp, x: nat, y: nat, n: nat)
    ensures Bits(op, x, y, n) == Bits(op, y, x, n)
  {
    if n != 0 { BitsCommute(op, x / 2, y / 2, n - 1); }
  }

  lemma {:induction false} XorZeroBits(x: nat, n: nat)
    ensures Bits(XorOp, x, 0, n) == x % Pow2(n)
  {
    if n != 0 {
      XorZeroBits(x / 2, n - 1);
      ModPow2Step(x, n - 1);
    }
  }

  /** Exclusive or undoes itself. */
  lemma {:induction false} XorCancelBits(x: nat, y: nat, n: nat)
    ensures Bits(XorOp, x, Bits(XorOp, x, y, n), n) == y % Pow2(n)
  {
    if n != 0 {
      var z := Bits(XorOp, x, y, n);
      assert z % 2 == XorOp.Apply(x % 2, y % 2) && z / 2 == Bits(XorOp, x / 2, y / 2, n - 1);
      XorCancelBits(x / 2, y / 2, n - 1);
      ModPow2Step(y, n - 1);
    }
  }

  // ---------- the operators on coerced numbers ----------

  predicate IsInt32(x: int) { -0x8000_0000 <= x < 0x8000_0000 }

  lemma Int32Identity(x: int)
    requires IsInt32(x)
    ensures ToInt32(x) == x && ToInt32(ToUint32(x)) == x
  {
  }

  lemma Pow2Words()
    ensures Pow2(16) == 0x1_0000 && Pow2(31) == 0x8000_0000 && Pow2(32) == TWO_32
  {
    assert Pow2(8) == 256;
    Pow2Add(8, 8);
    Pow2Add(16, 16);
    assert Pow2(32) == 2 * Pow2(31);
  }

  /** Reducing modulo a multiple of m does not change the remainder modulo m. */
  lemma ModOfMod(x: int, c: int, m: int)
    requires 0 < m && 0 < c * m
    ensures x % (c * m) % m == x % m
  {
    var t, u := x / (c * m), x % (c * m);
    var q, r := u / m, u % m;
    assert x == (c * m) * t + (m * q + r);
    assert (c * m) * t == (t * c) * m;
    assert (t * c) * m + q * m == (t * c + q) * m;
    DivModUnique(x, t * c + q, r, m);
  }

  lemma Mod32(x: int, k: nat)
    requires k <= 32
    ensures ToUint32(x) % Pow2(k) == x % Pow2(k)
  {
    Pow2Add(32 - k, k);
    Pow2Words();
    ModOfMod(x, Pow2(32 - k), Pow2(k));
  }

  lemma MaskCoerce(m: nat, v: int)
    requires 1 <= m <= 0x8000_0000 && 0 <= v < m
    ensures ToUint32(m - 1) == m - 1 && ToInt32(v) == v
  {
  }

  lemma {:induction false} Pow2Mono(m: nat, n: nat)
    requires m <= n
    ensures Pow2(m) <= Pow2(n)
  {
    if m < n { Pow2Mono(m, n - 1); }
  }

  /** Masking with 2^k - 1 is the remainder modulo 2^k, for negative numbers and for numbers
      beyond 32 bits too. */
  lemma AndMask(x: int, k: nat)
    requires k <= 31
    ensures And(x, Pow2(k) - 1) == x % Pow2(k)
  {
    var m := Pow2(k);
    assert 1 <= m <= 0x8000_0000 by { Pow2Mono(k, 31); Pow2Words(); }
    var u := ToUint32(x);
    assert Bits(AndOp, u, m - 1, 32) == u % m by { AndMaskBits(u, k, 32); }
    assert u % m == x % m by { Mod32(x, k); }
    MaskCoerce(m, u % m);
  }

  lemma XorZero(x: int)
    requires IsInt32(x)
    ensures Xor(x, 0) == x
  {
    hide Bits, Pow2;
    XorZeroBits(ToUint32(x), 32);
    Pow2Words();
  }

  lemma ToUint32OfBits(op: BitOp, x: int, y: int)
    ensures ToUint32(Bitwise(op, x, y)) == Bits(op, ToUint32(x), ToUint32(y), 32)
  {
    hide Bits, Pow2;
    BitsBound(op, ToUint32(x), ToUint32(y), 32);
    Pow2Words();
  }

  lemma XorCancel(p: int, q: int)
    requires IsInt32(q)
    ensures Xor(p, Xor(p, q)) == q
  {
    ToUint32OfBits(XorOp, p, q);
    XorCancelBits(ToUint32(p), ToUint32(q), 32);
    Pow2Words();
    Int32Identity(q);
  }

  /** The branch-free exchange: with c = 0 nothing moves, with c = -1 the values change places. */
  lemma XorExchange(p: int, q: int)
    requires IsInt32(p) && IsInt32(q)
    ensures Xor(p, Xor(p, q)) == q && Xor(q, Xor(p, q)) == p
  {
    XorCancel(p, q);
    XorCancel(q, p);
    BitsCommute(XorOp, ToUint32(p), ToUint32(q), 32);
  }

  lemma AndZero(t: int)
    ensures And(0, t) == 0
  {
    BitsCommute(AndOp, 0, ToUint32(t), 32);
    AndZeroBits(ToUint32(t), 32);
  }

  lemma AndOnesBits(u: nat, n: nat)
    requires u < Pow2(n)
    ensures Bits(AndOp, Pow2(n) - 1, u, n) == u
  {
    BitsCommute(AndOp, Pow2(n) - 1, u, n);
    AndMaskBits(u, n, n);
    DivModUnique(u, 0, u, Pow2(n));
  }

  lemma AndAllOnes(t: int)
    requires IsInt32(t)
    ensures And(-1, t) == t
  {
    hide Bits, Pow2;
    Pow2Words();
    AndOnesBits(ToUint32(t), 32);
  }

  lemma {:induction false} OrZeroBits(x: nat, n: nat)
    ensures Bits(OrOp, x, 0, n) == x % Pow2(n)
  {
    if n != 0 {
      OrZeroBits(x / 2, n - 1);
      ModPow2Step(x, n - 1);
    }
  }

  lemma {:induction false} OrDisjointBits(u: nat, y: nat, k: nat, n: nat)
    requires k <= n && u < Pow2(n) && y < Pow2(k) && u % Pow2(k) == 0
    ensures Bits(OrOp, u, y, n) == u + y
  {
    if k == 0 {
      OrZeroBits(u, n);
      DivModUnique(u, 0, u, Pow2(n));
    } else {
      ModPow2Step(u, k - 1);
      ModPow2Step(y, k - 1);
      OrDisjointBits(u / 2, y / 2, k - 1, n - 1);
    }
  }

  /** Or with a number that fits in the cleared low bits adds it, modulo 2^32. */
  lemma OrDisjoint(x: int, y: nat, k: nat)
    requires k <= 31 && y < Pow2(k) && x % Pow2(k) == 0
    ensures ToUint32(Or(x, y)) == ToUint32(x) + y
  {
    hide Bits, Pow2;
    Pow2Words();
    Pow2Mono(k, 31);
    Mod32(x, k);
    OrDisjointBits(ToUint32(x), y, k, 32);
    ToUint32OfBits(OrOp, x, y);
  }
}
