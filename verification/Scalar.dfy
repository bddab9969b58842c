/** The private key as a number: `Wireguard.clamp` and the bits the ladder reads. */
module Scalar {
  import opened JsNumber
  import opened Pack
  import opened Rfc7748

  const TOP := 0x100000000000000000000000000000000000000000000000000000000000000  // 256^31

  lemma KeepHighBits(p: nat, q: nat, r: nat, h: nat, n: nat)
    requires p <= 1 && q <= 1 && r <= 1 && h < 32 && 5 <= n
    ensures Bits(AndOp, p + 2 * (q + 2 * (r + 2 * h)), 248, n + 3) == 8 * h
  {
    hide Bits;
    assert Pow2(5) == 32;
    AndMaskBits(h, 5, n);
    BitsCons(AndOp, r, 0, h, 31, n);
    BitsCons(AndOp, q, 0, r + 2 * h, 62, n + 1);
    BitsCons(AndOp, p, 0, q + 2 * (r + 2 * h), 124, n + 2);
  }

  lemma LowThree(x: nat)
    ensures x == x % 2 + 2 * (x / 2 % 2 + 2 * (x / 4 % 2 + 2 * (x / 8)))
  {
  }

  lemma HighBits(x: nat)
    requires x < 256
    ensures Bits(AndOp, x, 248, 32) == 8 * (x / 8)
  {
    hide Bits;
    LowThree(x);
    KeepHighBits(x % 2, x / 2 % 2, x / 4 % 2, x / 8, 29);
  }

  lemma EightTimes(x: nat)
    ensures 8 * (x / 8) == x - x % 8
  {
  }

  /** Masking with 248 drops the three low bits of a byte. */
  lemma KeepHigh(x: nat)
    requires x < 256
    ensures And(x, 248) == x - x % 8 && ToUint8(And(x, 248)) == x - x % 8
  {
    hide Bits;
    HighBits(x);
    EightTimes(x);
  }

  lemma OrTopBitStep(x: nat, p: nat, h: nat, k: nat, n: nat)
    requires x == p + 2 * h && p <= 1 && 0 < k < n
    requires Bits(OrOp, h, Pow2(k - 1), n - 1) == h % Pow2(k - 1) + Pow2(k - 1)
    ensures Bits(OrOp, x, Pow2(k), n) == x % Pow2(k) + Pow2(k)
  {
    BitsCons(OrOp, p, 0, h, Pow2(k - 1), n - 1);
    ModPow2Step(x, k - 1);
  }

  lemma ZeroMod(m: nat)
    requires m >= 1
    ensures 0 % m == 0
  {
  }

  /** Setting the bit k of a number with no bit above k. */
  lemma {:induction false} OrTopBit(x: nat, k: nat, n: nat)
    requires x < Pow2(k + 1) && k < n
    ensures Bits(OrOp, x, Pow2(k), n) == x % Pow2(k) + Pow2(k)
  {
    if k == 0 {
      OrZeroBits(0, n - 1);
      ZeroMod(Pow2(n - 1));
      assert x / 2 == 0 && x % 1 == 0;
    } else {
      OrTopBit(x / 2, k - 1, n - 1);
      OrTopBitStep(x, x % 2, x / 2, k, n);
    }
  }

  lemma SetBit6(x: nat)
    requires x < 128
    ensures Or(x, 64) == x % 64 + 64
  {
    hide Bits;
    assert Pow2(6) == 64 && Pow2(7) == 128;
    OrTopBit(x, 6, 32);
  }

  function BytePower(n: nat): (w: nat) ensures w >= 1 { if n == 0 then 1 else 256 * BytePower(n - 1) }

  lemma {:induction false} BytePowerAdd(m: nat, n: nat)
    ensures BytePower(m + n) == BytePower(m) * BytePower(n)
  {
    if m != 0 {
      BytePowerAdd(m - 1, n);
      assert BytePower(m + n) == 256 * BytePower(m - 1 + n);
    }
  }

  lemma BytePowers()
    ensures BytePower(30) == TOP / 256
  {
    assert BytePower(5) == 0x100_0000_0000;
    hide BytePower;
    BytePowerAdd(5, 5);
    BytePowerAdd(10, 10);
    BytePowerAdd(20, 10);
  }

  lemma {:induction false} BytesRange(s: seq<int>, lo: nat, hi: nat)
    requires lo <= hi <= |s| && AreBytes(s)
    ensures 0 <= LittleEndian(s, lo, hi) < BytePower(hi - lo)
    decreases hi - lo
  {
    if lo < hi { BytesRange(s, lo + 1, hi); }
  }

  lemma Regroup256(w: int, x: int)
    ensures 256 * (w * x) == (256 * w) * x
  {
  }

  lemma {:induction false} LastByte(s: seq<int>, lo: nat, hi: nat)
    requires lo <= hi < |s|
    ensures LittleEndian(s, lo, hi + 1) == LittleEndian(s, lo, hi) + BytePower(hi - lo) * s[hi]
    decreases hi - lo
  {
    if lo < hi {
      LastByte(s, lo + 1, hi);
      Regroup256(BytePower(hi - lo - 1), s[hi]);
    }
  }

  /** First byte, middle bytes and last byte. */
  lemma ThreeParts(s: seq<int>)
    requires |s| == 32 && AreBytes(s)
    ensures LittleEndian(s, 0, 32) == s[0] + 256 * LittleEndian(s, 1, 31) + TOP * s[31]
    ensures 0 <= LittleEndian(s, 1, 31) < TOP / 256
  {
    hide BytePower;
    BytePowers();
    BytesRange(s, 1, 31);
    LastByte(s, 1, 31);
    assert LittleEndian(s, 0, 32) == s[0] + 256 * LittleEndian(s, 1, 32);
  }

  lemma {:induction false} BytesFrame(s: seq<int>, t: seq<int>, lo: nat, hi: nat)
    requires lo <= hi <= |s| && hi <= |t|
    requires forall k :: lo <= k < hi ==> s[k] == t[k]
    ensures LittleEndian(s, lo, hi) == LittleEndian(t, lo, hi)
    decreases hi - lo
  {
    if lo < hi { BytesFrame(s, t, lo + 1, hi); }
  }

  lemma LowByte(x: int, p: int, y: int, q: int)
    requires 0 <= x < 256 && 0 <= y < 256 && x + 256 * p == y + 256 * q
    ensures x == y && p == q
  {
  }

  /** Two byte strings of one length that stand for the same number are the same. */
  lemma {:induction false} LittleEndianInjective(s: seq<int>, t: seq<int>, lo: nat, hi: nat)
    requires lo <= hi <= |s| && |s| == |t| && AreBytes(s) && AreBytes(t)
    requires LittleEndian(s, lo, hi) == LittleEndian(t, lo, hi)
    ensures forall k :: lo <= k < hi ==> s[k] == t[k]
    decreases hi - lo
  {
    if lo < hi {
      LowByte(s[lo], LittleEndian(s, lo + 1, hi), t[lo], LittleEndian(t, lo + 1, hi));
      LittleEndianInjective(s, t, lo + 1, hi);
    }
  }

  lemma LowSeven(x: nat)
    ensures And(x, 127) == x % 128
  {
    hide And;
    AndMask(x, 7);
    assert Pow2(7) == 128;
  }

  lemma ClampLast(x: nat)
    requires x < 256
    ensures ToUint8(Or(And(x, 127), 64)) == x % 64 + 64
  {
    hide And, Or, Pow2;
    LowSeven(x);
    SetBit6(x % 128);
    assert x % 128 % 64 == x % 64;
  }

  lemma LowPart(x: int, m: int, r: int)
    requires 0 <= x < 256 && 0 <= m < TOP / 256 && 0 <= r < 64
    ensures var low := x + 256 * m + TOP * r; 0 <= low < HIGH && low / 8 * 8 == low - x % 8
  {
    var low := x + 256 * m + TOP * r;
    DivModUnique(low, x / 8 + 32 * m + TOP / 8 * r, x % 8, 8);
  }

  lemma ClampValue(x: int, m: int, y: int)
    requires 0 <= x < 256 && 0 <= m < TOP / 256 && 0 <= y < 256
    ensures DecodeScalar(x + 256 * m + TOP * y) == (x - x % 8) + 256 * m + TOP * (y % 64 + 64)
  {
    var q, r := y / 64, y % 64;
    var low := x + 256 * m + TOP * r;
    LowPart(x, m, r);
    assert x + 256 * m + TOP * y == q * HIGH + low;
    DivModUnique(x + 256 * m + TOP * y, q, low, HIGH);
  }

  /** `clamp`. */
  method Clamp(z: array<int>)
    requires z.Length == 32 && AreBytes(z[..])
    modifies z
    ensures AreBytes(z[..]) && LittleEndian(z[..], 0, 32) == DecodeScalar(old(LittleEndian(z[..], 0, 32)))
  {
    hide And, Or, ToUint8, LittleEndian, DecodeScalar;
    ghost var s := z[..];
    ThreeParts(s);
    ClampLast(z[31]);
    z[31] := ToUint8(Or(And(z[31], 127), 64));
    KeepHigh(z[0]);
    z[0] := ToUint8(And(z[0], 248));
    ThreeParts(z[..]);
    BytesFrame(s, z[..], 1, 31);
    ClampValue(s[0], LittleEndian(s, 1, 31), s[31]);
  }

  // ---------- the bits of the scalar ----------

  lemma {:induction false} DivPow2Add(n: nat, a: nat, b: nat)
    ensures n / Pow2(a + b) == n / Pow2(a) / Pow2(b)
  {
    if a == 0 {
      assert Pow2(0) == 1 && n / 1 == n;
    } else {
      ModPow2Step(n, a + b - 1);
      ModPow2Step(n, a - 1);
      DivPow2Add(n / 2, a - 1, b);
    }
  }

  lemma Doubled128(y: int, d: int, c: int)
    requires d * c == 128
    ensures 256 * y == 2 * (c * y) * d
  {
    assert c * y * d == (d * c) * y;
  }

  lemma EvenKept(q: int, e: int)
    ensures (q + 2 * e) % 2 == q % 2
  {
  }

  lemma LowBitKept(x: nat, y: nat, d: nat, c: nat)
    requires d >= 1 && d * c == 128
    ensures (x + 256 * y) / d % 2 == x / d % 2
  {
    var q, r, e := x / d, x % d, c * y;
    assert x == q * d + r;
    Doubled128(y, d, c);
    assert (q + 2 * e) * d == q * d + 2 * e * d;
    DivModUnique(x + 256 * y, q + 2 * e, r, d);
    EvenKept(q, e);
  }

  lemma BitOfLowByte(x: nat, y: nat, j: nat)
    requires x < 256 && j < 8
    ensures BitOf(x + 256 * y, j) == BitOf(x, j)
  {
    var d, c := Pow2(j), Pow2(7 - j);
    Pow2Add(j, 7 - j);
    assert Pow2(7) == 128;
    LowBitKept(x, y, d, c);
  }

  lemma BitOfHighByte(x: nat, y: nat, t: nat)
    requires x < 256
    ensures BitOf(x + 256 * y, 8 + t) == BitOf(y, t)
  {
    DivPow2Add(x + 256 * y, 8, t);
    assert Pow2(8) == 256 && (x + 256 * y) / 256 == y;
  }

  lemma {:induction false} BitOfBytes(s: seq<int>, lo: nat, hi: nat, q: nat, j: nat)
    requires lo + q < hi <= |s| && AreBytes(s) && j < 8
    ensures BitOf(LittleEndian(s, lo, hi), 8 * q + j) == BitOf(s[lo + q], j)
    decreases q
  {
    hide BitOf;
    BytesRange(s, lo + 1, hi);
    if q == 0 {
      BitOfLowByte(s[lo], LittleEndian(s, lo + 1, hi), j);
    } else {
      BitOfBytes(s, lo + 1, hi, q - 1, j);
      BitOfHighByte(s[lo], LittleEndian(s, lo + 1, hi), 8 * (q - 1) + j);
    }
  }

  lemma ReadsBitOfByte(x: nat, j: nat)
    requires x < 256 && j < 8
    ensures And(Ushr(x, j), 1) == BitOf(x, j)
  {
    hide And;
    assert Pow2(1) == 2;
    AndMask(Ushr(x, j), 1);
  }

  /** `(z[i >>> 3] >>> (i & 7)) & 1` is bit i of the number. */
  lemma ReadsBit(s: seq<int>, i: nat)
    requires |s| == 32 && AreBytes(s) && i < 256
    ensures Ushr(i, 3) == i / 8 && And(i, 7) == i % 8
    ensures And(Ushr(s[i / 8], i % 8), 1) == BitOf(LittleEndian(s, 0, 32), i)
  {
    hide And, BitOf, LittleEndian;
    assert Pow2(3) == 8;
    AndMask(i, 3);
    BitOfBytes(s, 0, 32, i / 8, i % 8);
    ReadsBitOfByte(s[i / 8], i % 8);
  }
}
