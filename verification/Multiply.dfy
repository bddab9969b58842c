/** Multiplication of field elements: `Wireguard.multmod`. */
module Multiply {
  import opened Carry
  import opened Field
  import opened JsNumber
  import opened Limbs

  const LOOSE := 0x2_0100
  const SQUARE := 0x4_0402_0000  // LOOSE * LOOSE, rounded up

  /** What may be multiplied: a reduced element, or the sum or difference of two. */
  predicate IsLoose(s: seq<int>) { IsWithin(s, LOOSE) }

  lemma NonNegative(x: int, y: int)
    requires 0 <= x && 0 <= y
    ensures 0 <= x * y
  {
  }

  lemma ProductBound(x: int, y: int)
    requires -LOOSE <= x <= LOOSE && -LOOSE <= y <= LOOSE
    ensures -SQUARE <= x * y <= SQUARE
  {
    var m := if y >= 0 then y else -y;
    NonNegative(LOOSE - x, m);
    NonNegative(LOOSE + x, m);
  }

  lemma {:induction false} PartExtend(s: seq<int>, lo: nat, hi: nat)
    requires lo <= hi < |s|
    ensures Part(s, lo, hi + 1) == Part(s, lo, hi) + s[hi] * Weight(hi - lo)
  {
    PartSplit(s, lo, hi, hi + 1);
  }

  lemma RowStep(x: int, y: int, wi: int, wj: int, p: int)
    ensures x * p * wi + x * y * (wi * wj) == x * (p + y * wj) * wi
  {
  }

  lemma ColumnStep(x: int, w: int, p: int, v: int)
    ensures p * v + x * v * w == (p + x * w) * v
  {
  }

  lemma EmptyPart(s: seq<int>, i: nat)
    requires i <= |s|
    ensures Part(s, i, i) == 0
  {
  }

  /** One row of the schoolbook product: x times all limbs of b, added at limb i of t. */
  method AddRow(t: array<int>, x: int, b: array<int>, i: nat, ghost bound: int)
    requires t.Length == 31 && i < 16 && t != b && 0 <= bound <= 15 * SQUARE
    requires IsLoose(b[..]) && -LOOSE <= x <= LOOSE
    requires forall k :: 0 <= k < 31 ==> -bound <= t[k] <= bound
    modifies t
    ensures Val(t[..]) == old(Val(t[..])) + x * Val(b[..]) * Weight(i)
    ensures forall k :: 0 <= k < 31 ==> -bound - SQUARE <= t[k] <= bound + SQUARE
  {
    hide Part, Weight, Red;
    ghost var v, bs := Val(t[..]), b[..];
    EmptyPart(bs, 0);
    for j := 0 to 16
      invariant b[..] == bs
      invariant Val(t[..]) == v + x * Part(bs, 0, j) * Weight(i)
      invariant forall k :: 0 <= k < 31 ==> -bound - SQUARE <= t[k] <= bound + SQUARE
      invariant forall k :: i + j <= k < 31 ==> -bound <= t[k] <= bound
    {
      ghost var was := t[..];
      ProductBound(x, b[j]);
      t[i + j] := Double(t[i + j] + Double(x * b[j]));
      assert t[..] == was[i + j := was[i + j] + x * bs[j]];
      ValAdd(was, i + j, x * bs[j]);
      WeightAdd(i, j);
      PartExtend(bs, 0, j);
      RowStep(x, bs[j], Weight(i), Weight(j), Part(bs, 0, j));
    }
  }

  lemma FoldValue(low: int, high: int, w: int)
    requires w == 2 * P + 38
    ensures Red(low + 38 * high) == Red(low + w * high)
  {
    assert w * high == 38 * high + (2 * high) * P;
    RedMultiple(low + 38 * high, 2 * high);
  }

  /** The limbs above 2^256 come back 38 times as the low ones. */
  method Fold(t: array<int>)
    requires t.Length == 31
    requires forall k :: 0 <= k < 31 ==> -16 * SQUARE <= t[k] <= 16 * SQUARE
    modifies t
    ensures Red(Part(t[..], 0, 16)) == Red(old(Val(t[..])))
    ensures forall k :: 0 <= k < 16 ==> -WIDE <= t[k] <= WIDE
  {
    hide Part, Red, Weight;
    ghost var s := t[..];
    EmptyPart(s, 16);
    for i := 0 to 15
      invariant forall k :: i <= k < 31 ==> t[k] == s[k]
      invariant forall k :: 0 <= k < 16 ==> -WIDE <= t[k] <= WIDE
      invariant Part(t[..], 0, 16) == Part(s, 0, 16) + 38 * Part(s, 16, 16 + i)
    {
      ghost var was := t[..];
      t[i] := Double(t[i] + Double(38 * t[i + 16]));
      assert t[..] == was[i := was[i] + 38 * s[i + 16]];
      PartAdd(was, i, 38 * s[i + 16], 0, 16);
      PartExtend(s, 16, 16 + i);
    }
    PartSplit(s, 0, 16, 31);
    FoldIdentity();
    FoldValue(Part(s, 0, 16), Part(s, 16, 31), Weight(16));
  }

  /** Two passes bring any folded product into range. */
  method CarryTwice(o: array<int>)
    requires IsWithin(o[..], WIDE)
    modifies o
    ensures IsReduced(o[..])
    ensures Red(Val(o[..])) == old(Red(Val(o[..])))
  {
    hide From, Val, Red;
    ghost var s := o[..];
    FromValue(s, 0);
    PassWide(s);
    Propagate(o);
    ghost var s1 := o[..];
    FromValue(s1, 0);
    PassMiddle(s1);
    Propagate(o);
  }

  lemma {:induction false} ZeroPart(s: seq<int>, lo: nat, hi: nat)
    requires lo <= hi <= |s|
    requires forall k :: lo <= k < hi ==> s[k] == 0
    ensures Part(s, lo, hi) == 0
    decreases hi - lo
  {
    if lo < hi { ZeroPart(s, lo + 1, hi); }
  }

  /** The schoolbook product. */
  method AddRows(t: array<int>, a: array<int>, b: array<int>)
    requires t.Length == 31 && t != a && t != b && IsLoose(a[..]) && IsLoose(b[..])
    requires forall k :: 0 <= k < 31 ==> t[k] == 0
    modifies t
    ensures Val(t[..]) == Val(a[..]) * Val(b[..])
    ensures forall k :: 0 <= k < 31 ==> -16 * SQUARE <= t[k] <= 16 * SQUARE
  {
    hide Part, Weight, Red;
    ghost var av, bv := a[..], Val(b[..]);
    ZeroPart(t[..], 0, 31);
    EmptyPart(av, 0);
    for i := 0 to 16
      invariant a[..] == av && Val(b[..]) == bv && IsLoose(b[..])
      invariant forall k :: 0 <= k < 31 ==> -i * SQUARE <= t[k] <= i * SQUARE
      invariant Val(t[..]) == Part(av, 0, i) * bv
    {
      AddRow(t, a[i], b, i, i * SQUARE);
      PartExtend(av, 0, i);
      ColumnStep(av[i], Weight(i), Part(av, 0, i), bv);
    }
  }

  /** `multmod`: o may be a or b, or both. */
  method Multmod(o: array<int>, a: array<int>, b: array<int>)
    requires o.Length == 16 && IsLoose(a[..]) && IsLoose(b[..])
    modifies o
    ensures IsReduced(o[..])
    ensures Red(Val(o[..])) == Mul(old(Val(a[..])), old(Val(b[..])))
  {
    hide Part, Red;
    var t := new int[31](_ => 0);
    AddRows(t, a, b);
    ghost var product := Val(t[..]);
    Fold(t);
    for i := 0 to 16
      invariant forall k :: 0 <= k < i ==> o[k] == t[k]
      invariant forall k :: 0 <= k < 16 ==> -WIDE <= t[k] <= WIDE
      invariant Red(Part(t[..], 0, 16)) == Red(product)
    {
      o[i] := t[i];
    }
    PartFrame(o[..], t[..], 0, 16);
    CarryTwice(o);
  }
}
