/** `RandomUtil.randomBase32String`, given its random bytes: a base 32 encoder that streams bits
    through a 32-bit buffer it never masks. */
module Base32 {
  import opened JsNumber
  import opened Rfc4648

  const ALPHABET := "ABCDEFGHIJKLMNOPQRSTUVWXYZ234567"

  /** Table 3 of RFC 4648. */
  function SymbolChar(v: nat): char
    requires v < 32
  {
    if v < 26 then (65 + v) as char else (50 + (v - 26)) as char
  }

  function SymbolValue(c: char): (v: nat)
  {
    var n := c as int;
    if 65 <= n <= 90 then n - 65 else if 50 <= n <= 55 then n - 24 else 32
  }

  lemma AlphabetIsTable(v: nat)
    requires v < 32
    ensures ALPHABET[v] == SymbolChar(v)
  {
    if v < 26 {
      assert ALPHABET[..26] == "ABCDEFGHIJKLMNOPQRSTUVWXYZ";
    } else {
      assert ALPHABET[26..] == "234567";
      assert ALPHABET[v] == "234567"[v - 26];
    }
  }

  /** Section 6 of RFC 4648 without its padding. */
  function Text(bytes: seq<nat>): (s: string)
    ensures |s| == SymbolCount(|bytes|, 5)
  {
    EncodeFits(bytes, 5);
    assert Pow2(5) == 32;
    seq(|Encode(bytes, 5)|, k requires 0 <= k < |Encode(bytes, 5)| => SymbolChar(Encode(bytes, 5)[k]))
  }

  function Values(s: string): (values: seq<nat>)
    ensures |values| == |s| && forall k :: 0 <= k < |s| ==> values[k] == SymbolValue(s[k])
  {
    seq(|s|, k requires 0 <= k < |s| => SymbolValue(s[k]))
  }

  function Parse(s: string): seq<nat> { Decode(Values(s), 5) }

  lemma ValueOfChar(v: nat)
    requires v < 32
    ensures SymbolValue(SymbolChar(v)) == v
  {
  }

  /** Every byte string of any length can be read back. */
  lemma ParseOfText(bytes: seq<nat>)
    requires Fits(bytes, 8)
    ensures Parse(Text(bytes)) == bytes
  {
    hide Decode, Encode;
    EncodeFits(bytes, 5);
    assert Pow2(5) == 32;
    forall k | 0 <= k < |Encode(bytes, 5)|
      ensures SymbolValue(Text(bytes)[k]) == Encode(bytes, 5)[k]
    {
      ValueOfChar(Encode(bytes, 5)[k]);
    }
    assert Values(Text(bytes)) == Encode(bytes, 5);
    RoundTrip(bytes, 5);
  }

  /** The invariant of the loop: of the buffer only the low `held` bits matter, and they are the
      bits from `from` on that have not been written yet. */
  ghost predicate Holds(buffer: int, bytes: seq<nat>, from: nat, held: nat) {
    from + held <= |bytes| * 8 && ToUint32(buffer) % Pow2(held) == Word(Stream(bytes, 8), from, held)
  }

  lemma ShiftValue(buffer: int)
    ensures ToInt32(ToInt32(buffer) * 256) % 256 == 0
    ensures ToUint32(ToInt32(ToInt32(buffer) * 256)) == ToUint32(256 * ToUint32(buffer))
  {
  }

  lemma ShiftEight(buffer: int, x: nat)
    requires x < 256
    ensures ToUint32(Or(Shl(buffer, 8), x)) == ToUint32(256 * ToUint32(buffer) + x)
  {
    hide Or;
    assert Pow2(8) == 256;
    var s := Shl(buffer, 8);
    assert s % 256 == 0 && ToUint32(s) == ToUint32(256 * ToUint32(buffer)) by { ShiftValue(buffer); }
    OrDisjoint(s, x, 8);
  }

  /** Appending eight bits commutes with forgetting the high ones. */
  lemma AppendByte(u: nat, x: nat, held: nat)
    requires x < 256
    ensures (256 * u + x) % Pow2(held + 8) == u % Pow2(held) * 256 + x
  {
    var m := Pow2(held);
    Pow2Add(held, 8);
    assert Pow2(8) == 256;
    var q, r := u / m, u % m;
    assert u == q * m + r;
    assert 256 * u + x == q * (256 * m) + (r * 256 + x) by { assert 256 * (q * m) == q * (256 * m); }
    DivModUnique(256 * u + x, q, r * 256 + x, 256 * m);
  }

  /** A new byte enters below the bits already held; whatever the shift pushes out at the top is
      not among them. */
  lemma ByteEnters(buffer: int, bytes: seq<nat>, i: nat, held: nat)
    requires Fits(bytes, 8) && i < |bytes| && held <= 4 && held <= i * 8
    requires Holds(buffer, bytes, i * 8 - held, held)
    ensures Holds(Or(Shl(buffer, 8), bytes[i]), bytes, i * 8 - held, held + 8)
  {
    hide Or, Stream, Word;
    var u, x := ToUint32(buffer), bytes[i];
    assert Pow2(8) == 256;
    ShiftEight(buffer, x);
    WordOfStream(bytes, 8, i);
    WordConcat(Stream(bytes, 8), i * 8 - held, held, 8);
    Mod32(256 * u + x, held + 8);
    AppendByte(u, x, held);
  }

  lemma SplitModulus(u: nat, m: nat, high: nat, low: nat)
    requires m > 0 && low < m && high < 32 && u % (32 * m) == high * m + low
    ensures u / m % 32 == high && u % m == low
  {
    var q := u / (32 * m);
    assert u == q * (32 * m) + high * m + low;
    assert u == (q * 32 + high) * m + low;
    DivModUnique(u, q * 32 + high, low, m);
  }

  /** The high part of the held bits is the next symbol. */
  lemma SymbolLeaves(buffer: int, bytes: seq<nat>, from: nat, held: nat)
    requires held + 5 < 32 && Holds(buffer, bytes, from, held + 5)
    ensures And(Ushr(buffer, held), 31) == Word(Stream(bytes, 8), from, 5)
    ensures Holds(buffer, bytes, from + 5, held)
  {
    hide And, Stream, Word;
    var bits := Stream(bytes, 8);
    var u, m := ToUint32(buffer), Pow2(held);
    assert Pow2(5) == 32;
    Pow2Add(5, held);
    WordConcat(bits, from, 5, held);
    assert forall j :: 0 <= j < |bits| ==> bits[j] <= 1;
    WordRange(bits, from, 5);
    WordRange(bits, from + 5, held);
    SplitModulus(u, m, Word(bits, from, 5), Word(bits, from + 5, held));
    AndMask(Ushr(buffer, held), 5);
  }

  lemma ScaledSum(q: int, m: int, r: int, c: int)
    ensures (q * m + r) * c == q * (c * m) + r * c
  {
  }

  lemma ScaledBound(m: int, r: int, c: int)
    requires 0 <= r < m && c > 0
    ensures 0 <= r * c < c * m
  {
    MulAway(m - r, c);
    assert (m - r) * c == c * m - r * c;
    assert 0 <= r * c by { if r > 0 { MulAway(r, c); } }
  }

  lemma ScaledRemainder(u: nat, q: nat, r: nat, m: nat, c: nat)
    requires m > 0 && c > 0 && q == u / m && r == u % m && c * m == 32
    ensures u * c == q * 32 + r * c && 0 <= r * c < 32
  {
    assert u == q * m + r;
    ScaledSum(q, m, r, c);
    ScaledBound(m, r, c);
  }

  lemma WrappedProduct(u: int, c: int)
    ensures (u - TWO_32) * c == u * c - 0x800_0000 * c * 32
  {
  }

  lemma TailValue(x: int, u: nat, m: nat, c: nat)
    requires c * m == 32 && m > 0 && c > 0 && (x == u || x == u - TWO_32)
    ensures x * c % 32 == u % m * c
  {
    var q, r := u / m, u % m;
    ScaledRemainder(u, q, r, m, c);
    if x == u {
      DivModUnique(x * c, q, r * c, 32);
    } else {
      WrappedProduct(u, c);
      DivModUnique(x * c, q - 0x800_0000 * c, r * c, 32);
    }
  }

  /** The last bits, moved up to fill a symbol. */
  lemma TailSymbol(buffer: int, bytes: seq<nat>, from: nat, held: nat)
    requires 0 < held < 5 && Holds(buffer, bytes, from, held)
    ensures And(Shl(buffer, 5 - held), 31) == Word(Stream(bytes, 8), from, held) * Pow2(5 - held)
  {
    hide And, Stream, Word;
    var u, c, m := ToUint32(buffer), Pow2(5 - held), Pow2(held);
    Pow2Add(5 - held, held);
    assert Pow2(5) == 32;
    assert forall j :: 0 <= j < |bytes| * 8 ==> Stream(bytes, 8)[j] <= 1;
    AndMask(Shl(buffer, 5 - held), 5);
    Mod32(ToInt32(buffer) * c, 5);
    Mod32(Shl(buffer, 5 - held), 5);
    assert ToInt32(buffer) * c % 32 == u % m * c by { TailValue(ToInt32(buffer), u, m, c); }
  }

  /** One symbol of the result. */
  lemma SymbolOfText(bytes: seq<nat>, k: nat)
    requires Fits(bytes, 8) && k * 5 + 5 <= |bytes| * 8
    ensures k < SymbolCount(|bytes|, 5) && Word(Stream(bytes, 8), k * 5, 5) < 32
    ensures Text(bytes)[k] == SymbolChar(Word(Stream(bytes, 8), k * 5, 5))
  {
    var bits := Stream(bytes, 8);
    CountFits(|bytes|, 5);
    assert Pow2(5) == 32;
    WordRange(bits, k * 5, 5);
    WordFrame(bits, bits + Zeros(SymbolCount(|bytes|, 5) * 5 - 8 * |bytes|), k * 5, 5);
  }

  lemma {:induction false} ZeroWord(bits: seq<nat>, lo: nat, n: nat)
    requires lo + n <= |bits| && forall j :: lo <= j < lo + n ==> bits[j] == 0
    ensures Word(bits, lo, n) == 0
  {
    if n != 0 { ZeroWord(bits, lo, n - 1); }
  }

  lemma LastSymbolOfText(bytes: seq<nat>, k: nat, held: nat)
    requires Fits(bytes, 8) && 0 < held < 5 && k * 5 + held == |bytes| * 8
    ensures SymbolCount(|bytes|, 5) == k + 1
    ensures Word(Stream(bytes, 8), k * 5, held) * Pow2(5 - held) < 32
    ensures Text(bytes)[k] == SymbolChar(Word(Stream(bytes, 8), k * 5, held) * Pow2(5 - held))
  {
    var bits := Stream(bytes, 8);
    CountFits(|bytes|, 5);
    assert SymbolCount(|bytes|, 5) == k + 1;
    var all := bits + Zeros(5 - held);
    WordConcat(all, k * 5, held, 5 - held);
    WordFrame(bits, all, k * 5, held);
    ZeroWord(all, k * 5 + held, 5 - held);
    WordRange(all, k * 5, 5);
    assert Pow2(5) == 32;
  }

  lemma StartsEmpty(bytes: seq<nat>)
    ensures Holds(0, bytes, 0, 0)
  {
  }

  lemma CountOfText(bytes: seq<nat>, k: nat, held: nat)
    requires held < 5 && k * 5 + held == |bytes| * 8
    ensures |Text(bytes)| == if held == 0 then k else k + 1
  {
    CountFits(|bytes|, 5);
  }

  /** The loop of `randomBase32String` over the random bytes. */
  method Base32String(random: seq<nat>) returns (result: string)
    requires Fits(random, 8)
    ensures result == Text(random)
  {
    hide And, Or, Shl, Ushr, Text, Stream, Word, Fits, SymbolChar, Pow2;
    result := "";
    var bits := 0;
    var buffer := 0;
    StartsEmpty(random);
    for i := 0 to |random|
      invariant 0 <= bits <= 4 && |result| * 5 + bits == i * 8
      invariant Holds(buffer, random, |result| * 5, bits)
      invariant |result| <= |Text(random)| && result == Text(random)[..|result|]
    {
      ByteEnters(buffer, random, i, bits);
      buffer := Or(Shl(buffer, 8), random[i]);
      bits := bits + 8;
      while bits >= 5
        invariant 0 <= bits <= 12 && |result| * 5 + bits == i * 8 + 8
        invariant Holds(buffer, random, |result| * 5, bits)
        invariant |result| <= |Text(random)| && result == Text(random)[..|result|]
      {
        bits := bits - 5;
        SymbolLeaves(buffer, random, |result| * 5, bits);
        SymbolOfText(random, |result|);
        AlphabetIsTable(And(Ushr(buffer, bits), 31));
        result := result + [ALPHABET[And(Ushr(buffer, bits), 31)]];
      }
    }
    CountOfText(random, |result|, bits);
    if bits > 0 {
      TailSymbol(buffer, random, |result| * 5, bits);
      LastSymbolOfText(random, |result|, bits);
      AlphabetIsTable(And(Shl(buffer, 5 - bits), 31));
      result := result + [ALPHABET[And(Shl(buffer, 5 - bits), 31)]];
    }
  }
}
