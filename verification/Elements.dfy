/** Field elements as arrays of limbs: `gf`, `add`, `subtract`, `multmod` and `cswap`. */
module Elements {
  import opened Carry
  import opened Field
  import opened JsNumber
  import opened Limbs
  import opened Multiply

  /** The field element an array of limbs stands for. */
  ghost function Fe(a: array<int>): (r: nat)
    reads a
    ensures r < P
  {
    Red(Val(a[..]))
  }

  ghost predicate Reduced(a: array<int>)
    reads a
  {
    a.Length == 16 && IsReduced(a[..])
  }

  ghost predicate Loose(a: array<int>)
    reads a
  {
    a.Length == 16 && IsLoose(a[..])
  }

  lemma {:induction false} PartSum(r: seq<int>, s: seq<int>, t: seq<int>, sign: int, lo: nat, hi: nat)
    requires lo <= hi <= |r| && hi <= |s| && hi <= |t| && (sign == 1 || sign == -1)
    requires forall k :: lo <= k < hi ==> r[k] == s[k] + sign * t[k]
    ensures Part(r, lo, hi) == Part(s, lo, hi) + sign * Part(t, lo, hi)
    decreases hi - lo
  {
    if lo < hi { PartSum(r, s, t, sign, lo + 1, hi); }
  }

  /** `add`: o may be a or b. */
  method AddLimbs(o: array<int>, a: array<int>, b: array<int>)
    requires o.Length == 16 && Reduced(a) && Reduced(b)
    modifies o
    ensures Loose(o)
    ensures Fe(o) == Add(old(Fe(a)), old(Fe(b)))
  {
    ghost var s, t := a[..], b[..];
    for i := 0 to 16
      invariant forall k :: i <= k < 16 ==> a[k] == s[k] && b[k] == t[k]
      invariant forall k :: 0 <= k < i ==> o[k] == s[k] + t[k]
    {
      Int32Identity(a[i] + b[i]);
      o[i] := ToInt32(Double(a[i] + b[i]));
    }
    PartSum(o[..], s, t, 1, 0, 16);
    RedAdd(Val(s), Val(t));
  }

  /** `subtract`: o may be a or b. */
  method SubtractLimbs(o: array<int>, a: array<int>, b: array<int>)
    requires o.Length == 16 && Reduced(a) && Reduced(b)
    modifies o
    ensures Loose(o)
    ensures Fe(o) == Sub(old(Fe(a)), old(Fe(b)))
  {
    ghost var s, t := a[..], b[..];
    for i := 0 to 16
      invariant forall k :: i <= k < 16 ==> a[k] == s[k] && b[k] == t[k]
      invariant forall k :: 0 <= k < i ==> o[k] == s[k] - t[k]
    {
      Int32Identity(a[i] - b[i]);
      o[i] := ToInt32(Double(a[i] - b[i]));
    }
    PartSum(o[..], s, t, -1, 0, 16);
    RedAdd(Val(s), Val(t));
  }

  /** `multmod` on field elements: o may be a or b. */
  method MultiplyLimbs(o: array<int>, a: array<int>, b: array<int>)
    requires o.Length == 16 && (Reduced(a) || Loose(a)) && (Reduced(b) || Loose(b))
    modifies o
    ensures Reduced(o)
    ensures Fe(o) == Mul(old(Fe(a)), old(Fe(b)))
  {
    RedMul(Val(a[..]), Val(b[..]));
    Multmod(o, a, b);
  }

  lemma ExchangeLimb(x: int, y: int, b: int)
    requires IsInt32(x) && IsInt32(y) && 0 <= b <= 1
    ensures var m := And(-b, Xor(x, y));
            Xor(x, m) == (if b == 1 then y else x) && Xor(y, m) == (if b == 1 then x else y)
  {
    hide Bits;
    if b == 1 {
      AndAllOnes(Xor(x, y));
      XorExchange(x, y);
    } else {
      AndZero(Xor(x, y));
      XorZero(x);
      XorZero(y);
    }
  }

  /** `cswap`: exchanges two arrays when b is 1, leaves them when it is 0. The exchange goes
      through 32-bit exclusive ors. */
  method Cswap(p: array<int>, q: array<int>, b: int)
    requires p != q && p.Length == q.Length == 16 && 0 <= b <= 1
    requires forall k :: 0 <= k < 16 ==> IsInt32(p[k]) && IsInt32(q[k])
    modifies p, q
    ensures p[..] == old(if b == 1 then q[..] else p[..])
    ensures q[..] == old(if b == 1 then p[..] else q[..])
  {
    var c := Not(b - 1);
    assert c == -b;
    ghost var s, t := p[..], q[..];
    for i := 0 to 16
      invariant forall k :: i <= k < 16 ==> p[k] == s[k] && q[k] == t[k]
      invariant forall k :: 0 <= k < i ==> p[k] == (if b == 1 then t[k] else s[k])
      invariant forall k :: 0 <= k < i ==> q[k] == (if b == 1 then s[k] else t[k])
    {
      ExchangeLimb(p[i], q[i], b);
      var m := And(c, Xor(p[i], q[i]));
      p[i] := Xor(p[i], m);
      q[i] := Xor(q[i], m);
    }
    assert p[..] == if b == 1 then t else s;
    assert q[..] == if b == 1 then s else t;
  }
}
