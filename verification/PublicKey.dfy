/** `Wireguard.generatePublicKey`: X25519 of the clamped key and the base point 9. */
module PublicKey {
  import opened Carry
  import opened Elements
  import opened Field
  import opened Invert
  import opened JsNumber
  import opened LadderStep
  import opened Limbs
  import opened MontgomeryStep
  import opened Multiply
  import opened Pack
  import opened Rfc7748
  import opened Scalar

  /** `gf`: a fresh element whose low limbs are given. */
  method Gf(init: seq<int>) returns (r: array<int>)
    ensures fresh(r) && r.Length == 16
    ensures forall k :: 0 <= k < 16 ==> r[k] == if k < |init| then init[k] else 0
  {
    r := new int[16](_ => 0);
    for i := 0 to |init|
      invariant forall k :: 0 <= k < 16 ==> r[k] == if k < i then init[k] else 0
    {
      if i < 16 { r[i] := init[i]; }
    }
  }

  lemma SmallElement(s: seq<int>, x: int, y: int)
    requires |s| == 16 && s[0] == x && s[1] == y && 0 <= x <= 0xffff && 0 <= y <= 0xffff
    requires forall k :: 2 <= k < 16 ==> s[k] == 0
    ensures IsReduced(s) && Red(Val(s)) == x + 0x1_0000 * y
  {
    ZeroPart(s, 2, 16);
    assert Part(s, 1, 16) == y + 0x1_0000 * Part(s, 2, 16);
    RedSmall(x + 0x1_0000 * y);
  }

  method Constant(init: seq<int>) returns (r: array<int>)
    requires |init| <= 2 && forall k :: 0 <= k < |init| ==> 0 <= init[k] <= 0xffff
    ensures fresh(r) && Reduced(r)
    ensures Fe(r) == (if |init| > 0 then init[0] else 0) + 0x1_0000 * (if |init| > 1 then init[1] else 0)
  {
    r := Gf(init);
    SmallElement(r[..], r[0], r[1]);
  }

  method SwapElements(p: array<int>, q: array<int>, b: int)
    requires p != q && Reduced(p) && Reduced(q) && 0 <= b <= 1
    modifies p, q
    ensures Reduced(p) && Reduced(q)
    ensures Fe(p) == old(if b == 1 then Fe(q) else Fe(p))
    ensures Fe(q) == old(if b == 1 then Fe(p) else Fe(q))
  {
    Cswap(p, q, b);
  }

  /** One iteration of the ladder loop. */
  method LadderIteration(a: array<int>, b: array<int>, c: array<int>, d: array<int>, e: array<int>, f: array<int>,
                         a24: array<int>, nine: array<int>, r: nat)
    requires AllReduced(a, b, c, d) && e.Length == f.Length == 16 && Reduced(a24) && Reduced(nine)
    requires a != b && a != c && a != d && a != e && a != f && b != c && b != d && b != e && b != f
    requires c != d && c != e && c != f && d != e && d != f && e != f
    requires a24 !in {a, b, c, d, e, f} && nine !in {a, b, c, d, e, f}
    requires Fe(a24) == 121665 && r <= 1
    modifies a, b, c, d, e, f
    ensures AllReduced(a, b, c, d)
    ensures State(a, b, c, d) == Iterate(r, Fe(nine), old(State(a, b, c, d)))
  {
    hide IsReduced, IsLoose, Red, Fe, Add, Sub, Mul;
    ghost var s := State(a, b, c, d);
    SwapElements(a, b, r);
    SwapElements(c, d, r);
    assert State(a, b, c, d) == CSwap(r, s);
    FirstHalf(a, b, c, d, e, f);
    SecondHalf(a, b, c, d, e, f, a24, nine);
    ScheduleIsStep(Fe(nine), CSwap(r, s));
    SwapElements(a, b, r);
    SwapElements(c, d, r);
  }

  lemma BitIsBit(k: int, t: nat)
    ensures 0 <= BitOf(k, t) <= 1
  {
  }

  /** The 255 iterations. */
  method LadderLoop(z: array<int>, a: array<int>, b: array<int>, c: array<int>, d: array<int>, e: array<int>,
                    f: array<int>, a24: array<int>, nine: array<int>)
    requires AllReduced(a, b, c, d) && e.Length == f.Length == 16 && Reduced(a24) && Reduced(nine)
    requires a != b && a != c && a != d && a != e && a != f && b != c && b != d && b != e && b != f
    requires c != d && c != e && c != f && d != e && d != f && e != f
    requires a24 !in {a, b, c, d, e, f} && nine !in {a, b, c, d, e, f} && z !in {a, b, c, d, e, f}
    requires Fe(a24) == 121665 && Fe(nine) == 9
    requires z.Length == 32 && AreBytes(z[..])
    modifies a, b, c, d, e, f
    ensures AllReduced(a, b, c, d)
    ensures State(a, b, c, d) == IterateAll(LittleEndian(z[..], 0, 32), 9, 255, old(State(a, b, c, d)))
  {
    hide IsReduced, IsLoose, Red, Fe, Iterate, LittleEndian, And, Ushr, BitOf;
    ghost var s, zs := State(a, b, c, d), z[..];
    ghost var k := LittleEndian(zs, 0, 32);
    for i := 255 downto 0
      invariant AllReduced(a, b, c, d) && Reduced(a24) && Reduced(nine) && Fe(a24) == 121665 && Fe(nine) == 9
      invariant z[..] == zs
      invariant IterateAll(k, 9, i, State(a, b, c, d)) == IterateAll(k, 9, 255, s)
    {
      ReadsBit(zs, i);
      BitIsBit(k, i);
      var r := And(Ushr(z[Ushr(i, 3)], And(i, 7)), 1);
      LadderIteration(a, b, c, d, e, f, a24, nine, r);
    }
  }

  /** The first 32 bytes of a key; a missing byte reads as undefined and is stored as 0. */
  function Pad(key: seq<int>): (s: seq<int>)
    ensures |s| == 32
  {
    seq(32, i requires 0 <= i < 32 => if i < |key| then key[i] else 0)
  }

  function Min(a: nat, b: nat): nat { if a < b then a else b }

  /** The number of the padded key is the number of the key's own first 32 bytes. */
  lemma {:induction false} PadValue(key: seq<int>, lo: nat)
    requires lo <= 32
    ensures var n := Min(32, |key|);
            LittleEndian(Pad(key), lo, 32) == if lo < n then LittleEndian(key, lo, n) else 0
    decreases 32 - lo
  {
    if lo < 32 { PadValue(key, lo + 1); }
  }

  lemma PadNumber(key: seq<int>)
    ensures LittleEndian(Pad(key), 0, 32) == LittleEndian(key, 0, Min(32, |key|))
  {
    PadValue(key, 0);
  }

  /** The clamped copy of the key. */
  method LoadScalar(privateKey: array<int>) returns (z: array<int>)
    requires AreBytes(privateKey[..])
    ensures fresh(z) && z.Length == 32 && AreBytes(z[..])
    ensures LittleEndian(z[..], 0, 32) == DecodeScalar(LittleEndian(privateKey[..], 0, Min(32, privateKey.Length)))
  {
    hide LittleEndian, DecodeScalar;
    z := new int[32](_ => 0);
    for i := 0 to 32
      invariant forall k :: 0 <= k < i ==> z[k] == Pad(privateKey[..])[k]
    {
      z[i] := if i < privateKey.Length then ToUint8(privateKey[i]) else 0;
    }
    assert z[..] == Pad(privateKey[..]);
    PadNumber(privateKey[..]);
    Clamp(z);
  }

  /** The affine coordinate x2 / z2, as the RFC computes it. */
  method Quotient(a: array<int>, c: array<int>)
    requires a != c && Reduced(a) && Reduced(c)
    modifies a, c
    ensures Reduced(a) && Fe(a) == Mul(old(Fe(a)), Power(old(Fe(c)), P - 2))
  {
    hide IsReduced, IsLoose, Red, Fe, Power, Mul;
    InvertLimbs(c, c);
    MultiplyLimbs(a, a, c);
  }

  /** `generatePublicKey`. */
  method GeneratePublicKey(privateKey: array<int>) returns (z: array<int>)
    requires AreBytes(privateKey[..])
    ensures fresh(z) && z.Length == 32 && AreBytes(z[..])
    ensures LittleEndian(z[..], 0, 32)
              == X25519(DecodeScalar(LittleEndian(privateKey[..], 0, Min(32, privateKey.Length))), 9)
  {
    hide IsReduced, IsLoose, Red, Fe, LittleEndian, DecodeScalar, Run, IterateAll, Power, Mul, Pad, AreBytes;
    z := LoadScalar(privateKey);
    var a := Constant([1]);
    var b := Constant([9]);
    var c := Constant([]);
    var d := Constant([1]);
    var e := Constant([]);
    var f := Constant([]);
    var a24 := Constant([0xdb41, 1]);
    var nine := Constant([9]);
    ghost var k := LittleEndian(z[..], 0, 32);
    assert State(a, b, c, d) == Ladder(1, 0, 9, 1);
    LadderLoop(z, a, b, c, d, e, f, a24, nine);
    DeferredSwap(k, 9, 255, Ladder(1, 0, 9, 1), 0);
    Quotient(a, c);
    PackBytes(z, a);
  }
}
