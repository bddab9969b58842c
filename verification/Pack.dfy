/** `Wireguard.pack`: the unique representative below p, as 32 little-endian bytes. */
module Pack {
  import opened Carry
  import opened Elements
  import opened Field
  import opened JsNumber
  import opened Limbs
  import opened Multiply

  /** The number that bytes lo, ..., hi - 1 stand for, low byte first. */
  function LittleEndian(s: seq<int>, lo: nat, hi: nat): int
    requires lo <= hi <= |s|
    decreases |s|, hi - lo
  {
    if lo == hi then 0 else s[lo] + 256 * LittleEndian(s, lo + 1, hi)
  }

  predicate AreBytes(s: seq<int>) { forall k :: 0 <= k < |s| ==> 0 <= s[k] < 256 }

  /** Limb i of p. */
  function LimbOfP(i: nat): nat { if i == 0 then 0xffed else if i < 15 then 0xffff else 0x7fff }

  function LimbsOfP(): (s: seq<int>)
    ensures |s| == 16
  {
    seq(16, i requires 0 <= i < 16 => LimbOfP(i))
  }

  lemma {:induction false} TopLimbs(s: seq<int>, i: nat)
    requires s == LimbsOfP() && i <= 15
    ensures Part(s, i, 16) == 0x8000 * Weight(15 - i) - (if i == 0 then 19 else 1)
    decreases 15 - i
  {
    if i == 15 {
      assert Part(s, 16, 16) == 0;
    } else {
      TopLimbs(s, i + 1);
      assert Weight(15 - i) == 0x1_0000 * Weight(14 - i);
    }
  }

  lemma ValOfP()
    ensures Part(LimbsOfP(), 0, 16) == P
  {
    TopLimbs(LimbsOfP(), 0);
    FoldIdentity();
    assert Weight(16) == 0x1_0000 * Weight(15);
  }

  lemma {:induction false} ProperRange(s: seq<int>, lo: nat, hi: nat)
    requires lo <= hi <= |s|
    requires forall k :: lo <= k < hi ==> 0 <= s[k] <= 0xffff
    ensures 0 <= Part(s, lo, hi) < Weight(hi - lo)
    decreases hi - lo
  {
    if lo < hi { ProperRange(s, lo + 1, hi); }
  }

  /** The borrow that `(x >> 16) & 1` reads off a limb difference, and the mask that undoes it. */
  lemma ShiftBorrow(x: int)
    requires -0x1_0000 <= x <= 0xffff
    ensures Shr(x, 16) == if x < 0 then -1 else 0
  {
    Pow2Words();
    Int32Identity(x);
  }

  lemma Borrow(x: int)
    requires -0x1_0000 <= x <= 0xffff
    ensures And(Shr(x, 16), 1) == (if x < 0 then 1 else 0)
    ensures And(x, 0xffff) == (if x < 0 then x + 0x1_0000 else x)
  {
    hide And, Shr;
    ShiftBorrow(x);
    AndMask(Shr(x, 16), 1);
    assert Pow2(1) == 2;
    LowBits(x);
  }

  lemma FirstLimb(m: seq<int>, t: seq<int>)
    requires |m| == 16 && |t| == 16 && m[0] == t[0] - 0xffed
    ensures Part(m, 0, 1) == Part(t, 0, 1) - Part(LimbsOfP(), 0, 1)
  {
    assert Part(m, 1, 1) == 0 && Part(t, 1, 1) == 0 && Part(LimbsOfP(), 1, 1) == 0;
  }

  lemma BorrowMoves(x: int, p: int, r: int, v: int, w: int)
    requires w == 0x1_0000 * v
    ensures (0x1_0000 * r) * v + (x - p - r) * w == x * w - p * w
  {
  }

  lemma DifferenceStep(was: seq<int>, now: seq<int>, t: seq<int>, i: nat, r: int)
    requires |was| == 16 && |now| == 16 && |t| == 16 && 1 <= i <= 15
    requires now[i - 1] == was[i - 1] + 0x1_0000 * r && now[i] == t[i] - LimbOfP(i) - r
    requires forall k :: 0 <= k < i - 1 ==> now[k] == was[k]
    requires Part(was, 0, i) == Part(t, 0, i) - Part(LimbsOfP(), 0, i)
    ensures Part(now, 0, i + 1) == Part(t, 0, i + 1) - Part(LimbsOfP(), 0, i + 1)
  {
    hide Part;
    PartAdd(was, i - 1, 0x1_0000 * r, 0, i);
    PartFrame(was[i - 1 := was[i - 1] + 0x1_0000 * r], now, 0, i);
    PartExtend(now, 0, i);
    PartExtend(t, 0, i);
    PartExtend(LimbsOfP(), 0, i);
    BorrowMoves(t[i], LimbOfP(i), r, Weight(i - 1), Weight(i));
  }

  /** Limb i of the difference takes the borrow of limb i - 1, which is masked. */
  method NextLimb(t: array<int>, m: array<int>, i: nat, p: int)
    requires t != m && IsProper(t[..]) && m.Length == 16 && 1 <= i <= 15 && p == LimbOfP(i)
    requires -0x1_0000 <= m[i - 1] <= 0xffff
    requires Part(m[..], 0, i) == Part(t[..], 0, i) - Part(LimbsOfP(), 0, i)
    modifies m
    ensures m[i] == t[i] - p - (if old(m[i - 1]) < 0 then 1 else 0)
    ensures 0 <= m[i - 1] <= 0xffff
    ensures forall k :: 0 <= k < i - 1 ==> m[k] == old(m[k])
    ensures Part(m[..], 0, i + 1) == Part(t[..], 0, i + 1) - Part(LimbsOfP(), 0, i + 1)
  {
    hide And, Shr, Part, LimbsOfP;
    ghost var was := m[..];
    ghost var r := if m[i - 1] < 0 then 1 else 0;
    Borrow(m[i - 1]);
    m[i] := Double(t[i] - p - And(Shr(m[i - 1], 16), 1));
    m[i - 1] := And(m[i - 1], 0xffff);
    DifferenceStep(was, m[..], t[..], i, r);
  }

  /** m becomes t - p, with all limbs but the last masked and the borrow left in the last. */
  method Difference(t: array<int>, m: array<int>) returns (b: int)
    requires t != m && IsProper(t[..]) && m.Length == 16
    modifies m
    ensures Val(m[..]) == Val(t[..]) - P
    ensures forall k :: 0 <= k < 15 ==> 0 <= m[k] <= 0xffff
    ensures -0x8000 <= m[15] <= 0x8000
    ensures b == if m[15] < 0 then 1 else 0
  {
    hide And, Shr, Part, LimbsOfP;
    ghost var ts := t[..];
    m[0] := Double(t[0] - 0xffed);
    FirstLimb(m[..], ts);
    for i := 1 to 15
      invariant t[..] == ts
      invariant forall k :: 0 <= k < i - 1 ==> 0 <= m[k] <= 0xffff
      invariant -0x1_0000 <= m[i - 1] <= 0xffff
      invariant Part(m[..], 0, i) == Part(ts, 0, i) - Part(LimbsOfP(), 0, i)
    {
      NextLimb(t, m, i, 0xffff);
    }
    NextLimb(t, m, 15, 0x7fff);
    Borrow(m[15]);
    b := And(Shr(m[15], 16), 1);
    ValOfP();
  }

  lemma SignOfTop(low: int, x: int, w: int)
    requires 0 <= low < w
    ensures low + x * w < 0 <==> x < 0
  {
    if x < 0 { NonNegative(-1 - x, w); } else { NonNegative(x, w); }
  }

  /** The last limb alone tells the sign. */
  lemma SignOfDifference(s: seq<int>)
    requires |s| == 16 && forall k :: 0 <= k < 15 ==> 0 <= s[k] <= 0xffff
    ensures Val(s) < 0 <==> s[15] < 0
  {
    hide Part, Weight, Red;
    ProperRange(s, 0, 15);
    PartExtend(s, 0, 15);
    SignOfTop(Part(s, 0, 15), s[15], Weight(15));
  }

  /** One round of the loop in `pack`: subtract p if that leaves a natural number. */
  method SubtractOnce(t: array<int>, m: array<int>)
    requires t != m && IsProper(t[..]) && m.Length == 16
    modifies t, m
    ensures IsProper(t[..])
    ensures Val(t[..]) == old(if Val(t[..]) >= P then Val(t[..]) - P else Val(t[..]))
  {
    hide Part;
    var b := Difference(t, m);
    SignOfDifference(m[..]);
    Cswap(t, m, 1 - b);
  }

  /** Three passes leave sixteen proper digits. */
  method Normalise(t: array<int>)
    requires Reduced(t)
    modifies t
    ensures IsProper(t[..]) && Red(Val(t[..])) == old(Fe(t))
  {
    FromValue(t[..], 0);
    PassReduced(t[..]);
    Propagate(t);
    FromValue(t[..], 0);
    PassReduced(t[..]);
    Propagate(t);
    FromValue(t[..], 0);
    PassReduced(t[..]);
    Propagate(t);
  }

  lemma TwiceIsEnough(v: int)
    requires 0 <= v < 2 * P + 38
    ensures var w := if v >= P then v - P else v;
            (if w >= P then w - P else w) == Red(v)
  {
    RedMultiple(v, -1);
    RedMultiple(v, -2);
  }

  lemma SplitLimb(x: int)
    requires 0 <= x <= 0xffff
    ensures ToUint8(And(x, 0xff)) == x % 256 && ToUint8(Shr(x, 8)) == x / 256
  {
    hide Bits;
    AndMask(x, 8);
    assert Pow2(8) == 256;
    Int32Identity(x);
  }

  lemma {:induction false} BytesOfLimbs(o: seq<int>, t: seq<int>, i: nat)
    requires |o| == 32 && IsProper(t) && i <= 16
    requires forall k :: 0 <= k < 16 ==> o[2 * k] == t[k] % 256 && o[2 * k + 1] == t[k] / 256
    ensures LittleEndian(o, 2 * i, 32) == Part(t, i, 16)
    decreases 16 - i
  {
    if i < 16 {
      BytesOfLimbs(o, t, i + 1);
      assert LittleEndian(o, 2 * i, 32) == o[2 * i] + 256 * LittleEndian(o, 2 * i + 1, 32);
      assert LittleEndian(o, 2 * i + 1, 32) == o[2 * i + 1] + 256 * LittleEndian(o, 2 * i + 2, 32);
    }
  }

  method WriteBytes(o: array<int>, t: array<int>)
    requires o != t && o.Length == 32 && IsProper(t[..])
    modifies o
    ensures AreBytes(o[..])
    ensures LittleEndian(o[..], 0, 32) == Val(t[..])
  {
    hide And, Shr, ToUint8;
    for i := 0 to 16
      invariant forall k :: 0 <= k < i ==> o[2 * k] == t[k] % 256 && o[2 * k + 1] == t[k] / 256
      invariant forall k :: 0 <= k < 2 * i ==> 0 <= o[k] < 256
    {
      SplitLimb(t[i]);
      o[2 * i] := ToUint8(And(t[i], 0xff));
      o[2 * i + 1] := ToUint8(Shr(t[i], 8));
    }
    BytesOfLimbs(o[..], t[..], 0);
  }

  /** `pack`. Two conditional subtractions are enough because 2^256 is 2 p + 38. */
  method PackBytes(o: array<int>, n: array<int>)
    requires o != n && o.Length == 32 && Reduced(n)
    modifies o
    ensures AreBytes(o[..])
    ensures LittleEndian(o[..], 0, 32) == Fe(n)
  {
    hide Part, LittleEndian, Weight;
    var m := new int[16](_ => 0);
    var t := new int[16](_ => 0);
    ghost var ns := n[..];
    for i := 0 to 16
      invariant forall k :: 0 <= k < i ==> t[k] == ns[k]
    {
      t[i] := n[i];
    }
    assert t[..] == ns;
    Normalise(t);
    ProperRange(t[..], 0, 16);
    FoldIdentity();
    ghost var v := Val(t[..]);
    SubtractOnce(t, m);
    SubtractOnce(t, m);
    TwiceIsEnough(v);
    WriteBytes(o, t);
  }
}
