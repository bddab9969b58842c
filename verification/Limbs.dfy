/** The sixteen 16-bit limbs of a field element, and what a change of one limb does to the
    number they stand for. */
module Limbs {
  import opened Field

  /** The number that limbs lo, lo + 1, ..., hi - 1 stand for, low limb first. Limbs need not
      be proper digits. */
  function Part(s: seq<int>, lo: nat, hi: nat): int
    requires lo <= hi <= |s|
    decreases |s|, hi - lo
  {
    if lo == hi then 0 else s[lo] + 0x1_0000 * Part(s, lo + 1, hi)
  }

  function Val(s: seq<int>): int { Part(s, 0, |s|) }

  /** The weight of limb n: 2^(16 n). */
  function Weight(n: nat): (w: nat)
    ensures w >= 1
  {
    if n == 0 then 1 else 0x1_0000 * Weight(n - 1)
  }

  lemma {:induction false} PartFrame(s: seq<int>, t: seq<int>, lo: nat, hi: nat)
    requires lo <= hi <= |s| && hi <= |t|
    requires forall k :: lo <= k < hi ==> s[k] == t[k]
    ensures Part(s, lo, hi) == Part(t, lo, hi)
    decreases hi - lo
  {
    if lo < hi { PartFrame(s, t, lo + 1, hi); }
  }

  lemma Regroup(d: int, w: int)
    ensures 0x1_0000 * (d * w) == d * (0x1_0000 * w)
  {
  }

  /** Adding d to limb i adds d times the weight of limb i. */
  lemma {:induction false} PartAdd(s: seq<int>, i: nat, d: int, lo: nat, hi: nat)
    requires lo <= i < hi <= |s|
    ensures Part(s[i := s[i] + d], lo, hi) == Part(s, lo, hi) + d * Weight(i - lo)
    decreases hi - lo
  {
    var t := s[i := s[i] + d];
    if i == lo {
      PartFrame(s, t, lo + 1, hi);
    } else {
      PartAdd(s, i, d, lo + 1, hi);
      Regroup(d, Weight(i - lo - 1));
    }
  }

  lemma ValAdd(s: seq<int>, i: nat, d: int)
    requires i < |s|
    ensures Val(s[i := s[i] + d]) == Val(s) + d * Weight(i)
  {
    PartAdd(s, i, d, 0, |s|);
  }

  lemma {:induction false} WeightAdd(m: nat, n: nat)
    ensures Weight(m + n) == Weight(m) * Weight(n)
  {
    if m != 0 {
      WeightAdd(m - 1, n);
      assert Weight(m + n) == 0x1_0000 * Weight(m - 1 + n);
    }
  }

  lemma {:induction false} PartSplit(s: seq<int>, lo: nat, mid: nat, hi: nat)
    requires lo <= mid <= hi <= |s|
    ensures Part(s, lo, hi) == Part(s, lo, mid) + Weight(mid - lo) * Part(s, mid, hi)
    decreases mid - lo
  {
    if lo < mid {
      PartSplit(s, lo + 1, mid, hi);
      Regroup(Part(s, mid, hi), Weight(mid - lo - 1));
    }
  }

  /** 2^256 = 2 p + 38, the identity behind the fold and the wrap-around carry. */
  lemma FoldIdentity()
    ensures Weight(16) == 2 * P + 38
  {
    assert Weight(4) == 0x1_0000_0000_0000_0000;
    WeightAdd(4, 4);
    WeightAdd(8, 8);
  }
}
