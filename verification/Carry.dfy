/** Carry propagation over sixteen limbs: `Wireguard.carry`. */
module Carry {
  import opened Field
  import opened JsNumber
  import opened Limbs

  /** One carry: limb i keeps its low 16 bits and its excess moves on; the excess of the last
      limb stands for a multiple of 2^256 and comes back to limb 0 times 38. */
  function Step(s: seq<int>, i: nat): (r: seq<int>)
    requires |s| == 16 && i < 16
    ensures |r| == 16
  {
    var t := s[i := s[i] % 0x1_0000];
    var c := s[i] / 0x1_0000;
    if i < 15 then t[i + 1 := s[i + 1] + c] else t[0 := s[0] + 38 * c]
  }

  /** The carries i, i+1, ..., 15 in that order. */
  function From(s: seq<int>, i: nat): (r: seq<int>)
    requires |s| == 16 && i <= 16
    ensures |r| == 16
    decreases 16 - i
  {
    if i == 16 then s else From(Step(s, i), i + 1)
  }

  function Pass(s: seq<int>): (r: seq<int>)
    requires |s| == 16
    ensures |r| == 16
  {
    From(s, 0)
  }

  predicate IsProper(s: seq<int>) {
    |s| == 16 && forall k :: 0 <= k < 16 ==> 0 <= s[k] <= 0xffff
  }

  /** What a multiplication leaves behind: proper limbs, but limb 0 off by at most one 38. */
  predicate IsReduced(s: seq<int>) {
    |s| == 16 && -38 <= s[0] <= 0xffff + 38 && forall k :: 1 <= k < 16 ==> 0 <= s[k] <= 0xffff
  }

  predicate IsWithin(s: seq<int>, m: int) {
    |s| == 16 && forall k :: 0 <= k < 16 ==> -m <= s[k] <= m
  }

  lemma MaskIsSubtraction(x: int)
    ensures x % 0x1_0000 == x + -0x1_0000 * (x / 0x1_0000)
  {
  }

  lemma Scale(q: int, w: int)
    ensures (-0x1_0000 * q) * w == -(q * (0x1_0000 * w))
  {
  }

  /** Taking q times 2^16 out of a limb and adding q to the next keeps the number. */
  lemma MoveUp(s: seq<int>, i: nat, q: int, r: int)
    requires |s| == 16 && i < 15 && r == s[i] + -0x1_0000 * q
    ensures Val(s[i := r][i + 1 := s[i + 1] + q]) == Val(s)
  {
    var t := s[i := r];
    ValAdd(s, i, -0x1_0000 * q);
    Scale(q, Weight(i));
    ValAdd(t, i + 1, q);
  }

  lemma WrapAround(v: int, q: int, w: int)
    requires w == 2 * P + 38
    ensures Red(v - q * w + 38 * q) == Red(v)
  {
    RedMultiple(v, -2 * q);
  }

  /** Taking it out of the last limb needs 38 q in the first to keep the number modulo p. */
  lemma MoveRound(s: seq<int>, q: int, r: int)
    requires |s| == 16 && r == s[15] + -0x1_0000 * q
    ensures Red(Val(s[15 := r][0 := s[0] + 38 * q])) == Red(Val(s))
  {
    var t := s[15 := r];
    ValAdd(s, 15, -0x1_0000 * q);
    Scale(q, Weight(15));
    ValAdd(t, 0, 38 * q);
    FoldIdentity();
    WrapAround(Val(s), q, Weight(16));
  }

  lemma StepValue(s: seq<int>, i: nat)
    requires |s| == 16 && i < 16
    ensures Red(Val(Step(s, i))) == Red(Val(s))
  {
    var q, r := s[i] / 0x1_0000, s[i] % 0x1_0000;
    MaskIsSubtraction(s[i]);
    if i < 15 {
      MoveUp(s, i, q, r);
    } else {
      MoveRound(s, q, r);
    }
  }

  /** A pass never changes the number modulo p. */
  lemma {:induction false} FromValue(s: seq<int>, i: nat)
    requires |s| == 16 && i <= 16
    ensures Red(Val(From(s, i))) == Red(Val(s))
    decreases 16 - i
  {
    if i < 16 {
      StepValue(s, i);
      FromValue(Step(s, i), i + 1);
    }
  }

  /** If carries between cl and ch reproduce themselves on limbs between lo and hi, the rest of
      a pass leaves proper limbs and moves limb 0 by 38 times such a carry. */
  lemma {:induction false} FromRange(s: seq<int>, i: nat, lo: int, hi: int, cl: int, ch: int)
    requires |s| == 16 && 1 <= i < 16
    requires cl <= (lo + cl) / 0x1_0000 && (hi + ch) / 0x1_0000 <= ch
    requires lo + cl <= s[i] <= hi + ch
    requires forall k :: 1 <= k < i ==> 0 <= s[k] <= 0xffff
    requires forall k :: i < k < 16 ==> lo <= s[k] <= hi
    ensures s[0] + 38 * cl <= From(s, i)[0] <= s[0] + 38 * ch
    ensures forall k :: 1 <= k < 16 ==> 0 <= From(s, i)[k] <= 0xffff
    decreases 16 - i
  {
    var t := Step(s, i);
    assert cl <= s[i] / 0x1_0000 <= ch;
    if i < 15 {
      FromRange(t, i + 1, lo, hi, cl, ch);
    } else {
      assert From(s, i) == t;
    }
  }

  const WIDE := 0x1000_0000_0000
  const MIDDLE := 0x4_0000_0000

  lemma PassWide(s: seq<int>)
    requires IsWithin(s, WIDE)
    ensures -MIDDLE <= Pass(s)[0] <= MIDDLE
    ensures forall k :: 1 <= k < 16 ==> 0 <= Pass(s)[k] <= 0xffff
  {
    FromRange(Step(s, 0), 1, -WIDE, WIDE, -0x1000_1001, 0x1000_1001);
  }

  lemma PassMiddle(s: seq<int>)
    requires |s| == 16 && -MIDDLE <= s[0] <= MIDDLE
    requires forall k :: 1 <= k < 16 ==> 0 <= s[k] <= 0xffff
    ensures IsReduced(Pass(s))
  {
    var s1 := Step(s, 0);
    var s2 := Step(s1, 1);
    var s3 := Step(s2, 2);
    assert -0x4_0000 <= s[0] / 0x1_0000 <= 0x4_0000;
    assert -5 <= s1[1] / 0x1_0000 <= 5;
    assert -1 <= s2[2] / 0x1_0000 <= 1;
    FromRange(s3, 3, 0, 0xffff, -1, 1);
  }

  lemma PassReduced(s: seq<int>)
    requires IsReduced(s)
    ensures IsProper(Pass(s))
  {
    var s1 := Step(s, 0);
    var c := s[0] / 0x1_0000;
    assert s1[0] == s[0] - 0x1_0000 * c && s1[1] == s[1] + c;
    var cl, ch := if c < 0 then -1 else 0, if c > 0 then 1 else 0;
    FromRange(s1, 1, 0, 0xffff, cl, ch);
    assert Pass(s) == From(s1, 1);
  }

  lemma LowBits(x: int)
    ensures And(x, 0xffff) == x % 0x1_0000
  {
    Pow2Words();
    AndMask(x, 16);
  }

  /** The body of the loop in `carry`. The mask takes the low bits even of a limb that does not
      fit in 32 bits. */
  method PropagateLimb(o: array<int>, i: nat)
    requires o.Length == 16 && i < 16
    requires -2 * WIDE <= o[i] <= 2 * WIDE && -2 * WIDE <= o[(i + 1) % 16] <= 2 * WIDE
    modifies o
    ensures o[..] == Step(old(o[..]), i)
  {
    hide And;
    var next := (i + 1) % 16;
    o[next] := Double(o[next] + Double((if i < 15 then 1 else 38) * (o[i] / 0x1_0000)));
    LowBits(o[i]);
    o[i] := And(o[i], 0xffff);
  }

  /** What the loop in `carry` needs to know of one step. */
  lemma StepFacts(s: seq<int>, i: nat)
    requires |s| == 16 && i < 16
    ensures From(s, i) == From(Step(s, i), i + 1) && |Step(s, i)| == 16
    ensures forall k :: i + 1 < k < 16 ==> Step(s, i)[k] == s[k]
    ensures i < 15 ==> Step(s, i)[i + 1] == s[i + 1] + s[i] / 0x1_0000 && 0 <= Step(s, i)[i] <= 0xffff
    ensures 0 < i < 15 ==> Step(s, i)[0] == s[0]
  {
  }

  lemma PassEnds(s: seq<int>)
    requires |s| == 16
    ensures From(s, 16) == s && From(s, 0) == Pass(s)
  {
  }

  /** `carry`: one pass in place. Doubles stay exact because limbs are below 2^44. */
  method Propagate(o: array<int>)
    requires IsWithin(o[..], WIDE)
    modifies o
    ensures o[..] == Pass(old(o[..]))
  {
    hide Step, From, Pass;
    ghost var s := o[..];
    PassEnds(s);
    for i := 0 to 16
      invariant From(o[..], i) == Pass(s)
      invariant 0 < i < 16 ==> 0 <= o[0] <= 0xffff
      invariant forall k :: i < k < 16 ==> o[k] == s[k]
      invariant i < 16 ==> -WIDE - 0x1000_1001 <= o[i] <= WIDE + 0x1000_1001
    {
      ghost var was := o[..];
      StepFacts(was, i);
      PropagateLimb(o, i);
      assert forall k :: 0 <= k < 16 ==> o[k] == Step(was, i)[k];
    }
    PassEnds(o[..]);
  }
}
