/** Section 5 of RFC 7748, transcribed: the reference for the public key. */
module Rfc7748 {
  import opened Field
  import opened JsNumber

  datatype Ladder = Ladder(x2: nat, z2: nat, x3: nat, z3: nat)

  function CSwap(swap: nat, s: Ladder): Ladder {
    if swap == 1 then Ladder(s.x3, s.z3, s.x2, s.z2) else s
  }

  /** The arithmetic of one ladder step, with the names of the RFC. */
  function Step(x1: nat, s: Ladder): Ladder {
    var A := Add(s.x2, s.z2);
    var AA := Mul(A, A);
    var B := Sub(s.x2, s.z2);
    var BB := Mul(B, B);
    var E := Sub(AA, BB);
    var C := Add(s.x3, s.z3);
    var D := Sub(s.x3, s.z3);
    var DA := Mul(D, A);
    var CB := Mul(C, B);
    var sum := Add(DA, CB);
    var diff := Sub(DA, CB);
    Ladder(Mul(AA, BB), Mul(E, Add(AA, Mul(121665, E))), Mul(sum, sum), Mul(x1, Mul(diff, diff)))
  }

  function BitOf(k: int, t: nat): nat { k / Pow2(t) % 2 }

  /** Steps t - 1, t - 2, ..., 0; `swap` is the exchange still owed by the previous step. */
  function Run(k: int, x1: nat, t: nat, s: Ladder, swap: nat): (Ladder, nat)
  {
    if t == 0 then (s, swap)
    else
      var kt := BitOf(k, t - 1);
      Run(k, x1, t - 1, Step(x1, CSwap((swap + kt) % 2, s)), kt)
  }

  function Power(z: nat, n: nat): nat
  {
    if n == 0 then 1 else Mul(z, Power(z, n - 1))
  }

  function X25519(k: int, u: nat): nat {
    var (s, swap) := Run(k, u, 255, Ladder(1, 0, u, 1), 0);
    var r := CSwap(swap, s);
    Mul(r.x2, Power(r.z2, P - 2))
  }

  const HIGH := 0x4000000000000000000000000000000000000000000000000000000000000000  // 2^254

  /** decodeScalar25519 as arithmetic on the number the 32 bytes stand for: the three low bits and
      the top bit are dropped, and bit 254 is set. */
  function DecodeScalar(n: int): int
  {
    n % HIGH / 8 * 8 + HIGH
  }

  lemma Fourteen()
    ensures Pow2(14) == 0x4000
  {
    assert Pow2(7) == 128;
    Pow2Add(7, 7);
  }

  lemma HighIsPower()
    ensures Pow2(254) == HIGH
  {
    hide Pow2;
    Pow2Words();
    Pow2Add(32, 32);
    Pow2Add(64, 64);
    Pow2Add(128, 64);
    Pow2Add(192, 32);
    Pow2Add(224, 16);
    assert Pow2(14) == 0x4000 by { Fourteen(); }
    Pow2Add(240, 14);
  }

  /** Clamping a clamped key changes nothing, and a clamped scalar is a multiple of 8 whose highest
      bit is bit 254. */
  lemma DecodeScalarIdempotent(n: int)
    ensures DecodeScalar(DecodeScalar(n)) == DecodeScalar(n)
    ensures DecodeScalar(n) % 8 == 0 && BitOf(DecodeScalar(n), 254) == 1 && 0 <= DecodeScalar(n) < 2 * HIGH
  {
    hide Pow2;
    var r := n % HIGH / 8;
    assert 0 <= n % HIGH < HIGH && n % HIGH == 8 * r + n % HIGH % 8;
    DivModUnique(DecodeScalar(n), 1, 8 * r, HIGH);
    HighIsPower();
  }
}
