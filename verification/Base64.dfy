/** The base64 of `Wireguard`: `encodeBase64`, `keyToBase64` and `keyFromBase64`. */
module Base64 {
  import opened JsNumber
  import opened Options
  import opened Rfc4648

  /** Table 1 of RFC 4648 as character codes. */
  function SymbolCode(v: nat): (c: nat)
    requires v < 64
    ensures c < 128
  {
    Base64Char(v, false) as nat
  }

  function Printed(symbols: seq<nat>): (s: string)
    requires forall k :: 0 <= k < |symbols| ==> symbols[k] < 64
    ensures |s| == |symbols|
  {
    seq(|symbols|, k requires 0 <= k < |symbols| => SymbolCode(symbols[k]) as char)
  }

  /** Section 4 of RFC 4648: the symbols, then `=` up to a multiple of four characters. */
  function Text(bytes: seq<nat>): string
  {
    EncodeFits(bytes, 6);
    assert Pow2(6) == 64;
    var n := |Encode(bytes, 6)|;
    Printed(Encode(bytes, 6)) + seq(3 - (n + 3) % 4, _ => '=')
  }

  // ---------- the encoder ----------

  /** What `encodeBase64` adds to a six-bit value: six arithmetic steps instead of a table. */
  function CodeOf(v: int): int {
    v + 65 + And(Shr(25 - v, 8), 6) - And(Shr(51 - v, 8), 75) - And(Shr(61 - v, 8), 15) + And(Shr(62 - v, 8), 3)
  }

  lemma SignMask(x: int, m: nat)
    requires -256 <= x < 256 && m < 0x8000_0000
    ensures And(Shr(x, 8), m) == if x < 0 then m else 0
  {
    hide Bits;
    assert Pow2(8) == 256;
    Int32Identity(x);
    if x < 0 { AndAllOnes(m); } else { AndZero(m); }
  }

  lemma CodeIsTable(v: nat)
    requires v < 64
    ensures CodeOf(v) == SymbolCode(v)
  {
    hide And, Shr;
    SignMask(25 - v, 6);
    SignMask(51 - v, 75);
    SignMask(61 - v, 15);
    SignMask(62 - v, 3);
  }

  /** The four six-bit values of three bytes. */
  function Sextet(b0: nat, b1: nat, b2: nat, r: nat): nat {
    if r == 0 then b0 / 4
    else if r == 1 then b0 % 4 * 16 + b1 / 16
    else if r == 2 then b1 % 16 * 4 + b2 / 64
    else b2 % 64
  }

  lemma JoinBytes(x: nat, y: nat, k: nat, m: nat)
    requires x < 256 && 1 <= k <= 6 && m == Pow2(k) && y < m
    ensures And(Or(Shl(x, k), y), 63) == (x * m + y) % 64
  {
    hide Bits;
    assert m <= 64 && m >= 2 by { Pow2Mono(1, k); Pow2Mono(k, 6); assert Pow2(1) == 2 && Pow2(6) == 64; }
    assert 0 <= x * m <= 64 * x by { MulAway(x, m); assert x * (64 - m) >= 0; }
    Int32Identity(x);
    Int32Identity(x * m);
    DivModUnique(x * m, x, 0, m);
    OrDisjoint(x * m, y, k);
    assert Pow2(6) == 64;
    AndMask(Or(Shl(x, k), y), 6);
    Mod32(Or(Shl(x, k), y), 6);
  }

  lemma SmallPowers()
    ensures Pow2(2) == 4 && Pow2(4) == 16 && Pow2(6) == 64 && Pow2(8) == 256
  {
  }

  lemma OuterSextets(b0: nat, b2: nat)
    requires b0 < 256 && b2 < 256
    ensures And(Shr(b0, 2), 63) == b0 / 4 && And(b2, 63) == b2 % 64
  {
    hide And, Pow2;
    SmallPowers();
    AndMask(Shr(b0, 2), 6);
    AndMask(b2, 6);
  }

  /** A sextet that spans two bytes: k bits of the second come after the last ones of the first. */
  lemma InnerSextet(x: nat, y: nat, k: nat, m: nat)
    requires x < 256 && y < 256 && ((k == 4 && m == 16) || (k == 2 && m == 4))
    ensures And(Or(Shl(x, k), Shr(y, 8 - k)), 63) == (x * m + y / (256 / m)) % 64
  {
    hide And, Or, Shl, Pow2;
    SmallPowers();
    Int32Identity(y);
    JoinBytes(x, y / (256 / m), k, m);
  }

  lemma SpanRemainder(x: nat, y: nat, m: nat, c: nat)
    requires y < m && c > 0 && ((m == 16 && c == 4) || (m == 4 && c == 16))
    ensures (x * m + y) % 64 == x % c * m + y
  {
    assert x == x / c * c + x % c;
    DivModUnique(x * m + y, x / c, x % c * m + y, 64);
  }

  lemma SextetOfBytes(b0: nat, b1: nat, b2: nat)
    requires b0 < 256 && b1 < 256 && b2 < 256
    ensures Sextet(b0, b1, b2, 1) == (b0 * 16 + b1 / 16) % 64 && Sextet(b0, b1, b2, 2) == (b1 * 4 + b2 / 64) % 64
  {
    SpanRemainder(b0, b1 / 16, 16, 4);
    SpanRemainder(b1, b2 / 64, 4, 16);
  }

  lemma Sextets(b0: nat, b1: nat, b2: nat)
    requires b0 < 256 && b1 < 256 && b2 < 256
    ensures And(Shr(b0, 2), 63) == Sextet(b0, b1, b2, 0)
    ensures And(Or(Shl(b0, 4), Shr(b1, 4)), 63) == Sextet(b0, b1, b2, 1)
    ensures And(Or(Shl(b1, 2), Shr(b2, 6)), 63) == Sextet(b0, b1, b2, 2)
    ensures And(b2, 63) == Sextet(b0, b1, b2, 3)
  {
    hide And, Or, Shl, Shr;
    OuterSextets(b0, b2);
    InnerSextet(b0, b1, 4, 16);
    InnerSextet(b1, b2, 2, 4);
    SextetOfBytes(b0, b1, b2);
  }

  lemma SextetRange(b0: nat, b1: nat, b2: nat, r: nat)
    requires b0 < 256 && b1 < 256 && b2 < 256 && r < 4
    ensures 0 <= Sextet(b0, b1, b2, r) < 64
  {
  }

  function SextetCode(b0: nat, b1: nat, b2: nat, r: nat): nat
    requires b0 < 256 && b1 < 256 && b2 < 256 && r < 4
  {
    SextetRange(b0, b1, b2, r);
    SymbolCode(Sextet(b0, b1, b2, r))
  }

  /** `encodeBase64` on views that start at `off`; writes past the end of the array are ignored. */
  method EncodeGroup(dest: array<int>, off: nat, b0: nat, b1: nat, b2: nat)
    requires b0 < 256 && b1 < 256 && b2 < 256
    modifies dest
    ensures forall k :: 0 <= k < dest.Length ==>
              dest[k] == if off <= k < off + 4 then SextetCode(b0, b1, b2, k - off) else old(dest[k])
  {
    hide And, Or, Shl, Shr, Sextet, CodeOf;
    Sextets(b0, b1, b2);
    var input := [
      And(Shr(b0, 2), 63), And(Or(Shl(b0, 4), Shr(b1, 4)), 63), And(Or(Shl(b1, 2), Shr(b2, 6)), 63), And(b2, 63)
    ];
    for i := 0 to 4
      invariant forall k :: 0 <= k < dest.Length ==>
                  dest[k] == if off <= k < off + i then SextetCode(b0, b1, b2, k - off) else old(dest[k])
    {
      SextetRange(b0, b1, b2, i);
      CodeIsTable(input[i]);
      if off + i < dest.Length { dest[off + i] := ToUint8(CodeOf(input[i])); }
    }
  }

  /** Byte i of a key; a missing byte acts as 0. */
  function ByteAt(key: seq<nat>, i: nat): (b: nat)
    ensures Fits(key, 8) ==> b < 256
  {
    assert Pow2(8) == 256;
    if i < |key| then key[i] else 0
  }

  lemma CodeRange(b0: nat, b1: nat, b2: nat, r: nat)
    requires b0 < 256 && b1 < 256 && b2 < 256 && r < 4
    ensures SextetCode(b0, b1, b2, r) < 128
  {
  }

  // ---------- the encoder against the standard ----------

  lemma FirstBits(values: seq<nat>, i: nat, m: nat)
    requires i < |values| && values[i] < 256 && m <= 8
    ensures Word(Stream(values, 8), i * 8, m) == values[i] / Pow2(8 - m)
  {
    hide Word, Digit;
    var bits := Stream(values, 8);
    forall j | i * 8 <= j < i * 8 + m ensures bits[j] == Digit(values[i], 8, j - i * 8) {
      Locate(i, 8, j - i * 8);
    }
    assert Pow2(8) == 256;
    WordOfBits(bits, i * 8, m, 8, values[i]);
  }

  lemma Remainder(x: nat, p: nat)
    requires p >= 1
    ensures x == x / p * p + x % p
  {
  }

  /** The first m bits and the last n bits of byte i. */
  lemma ByteParts(values: seq<nat>, i: nat, m: nat, n: nat)
    requires i < |values| && values[i] < 256 && m + n == 8
    ensures Word(Stream(values, 8), i * 8, m) == values[i] / Pow2(n)
    ensures Word(Stream(values, 8), i * 8 + m, n) == values[i] % Pow2(n)
  {
    hide Word, Stream;
    FirstBits(values, i, m);
    assert Pow2(8) == 256;
    WordOfStream(values, 8, i);
    WordConcat(Stream(values, 8), i * 8, m, n);
    Remainder(values[i], Pow2(n));
  }

  /** Symbol 4 g + r of a byte string is made of bytes 3 g, 3 g + 1 and 3 g + 2. */
  lemma SextetIsWord(values: seq<nat>, g: nat, r: nat)
    requires 3 * g + 2 < |values| && r < 4 && Fits(values, 8)
    ensures Word(Stream(values, 8), 24 * g + 6 * r, 6) == Sextet(values[3 * g], values[3 * g + 1], values[3 * g + 2], r)
  {
    hide Stream;
    var bits := Stream(values, 8);
    assert Pow2(8) == 256 && Pow2(6) == 64 && Pow2(4) == 16 && Pow2(2) == 4;
    ByteParts(values, 3 * g, 6, 2);
    ByteParts(values, 3 * g + 1, 4, 4);
    ByteParts(values, 3 * g + 2, 2, 6);
    WordConcat(bits, 24 * g + 6, 2, 4);
    WordConcat(bits, 24 * g + 12, 4, 2);
  }

  lemma ZeroDigit(w: nat, j: nat)
    requires j < w
    ensures Digit(0, w, j) == 0
  {
    DivModUnique(0, 0, 0, Pow2(w - 1 - j));
  }

  /** Every symbol of a 32-byte key is the one the arithmetic computes, the last one included. */
  lemma SymbolOfKey(key: seq<nat>, k: nat)
    requires |key| == 32 && Fits(key, 8) && k < 43
    ensures |Encode(key, 6)| == 43
    ensures Encode(key, 6)[k]
              == Sextet(ByteAt(key, k / 4 * 3), ByteAt(key, k / 4 * 3 + 1), ByteAt(key, k / 4 * 3 + 2), k % 4)
  {
    var padded := key + [0];
    assert Pow2(8) == 256;
    var bits, all := Stream(key, 8) + Zeros(2), Stream(padded, 8);
    forall j | 0 <= j < 258 ensures bits[j] == all[j] {
      Place(33, 8, j);
      if j >= 256 { assert j / 8 == 32; ZeroDigit(8, j % 8); }
    }
    WordFrame(bits, all, k * 6, 6);
    SextetIsWord(padded, k / 4, k % 4);
    assert 24 * (k / 4) + 6 * (k % 4) == k * 6;
  }

  /** What `keyToBase64` returns, symbol by symbol, is the base64 of section 4. */
  lemma KeyTextIsBase64(key: seq<nat>, text: string)
    requires |key| == 32 && Fits(key, 8)
    requires |text| == 44 && text[43] == '='
    requires forall k :: 0 <= k < 43 ==>
              var g := k / 4 * 3;
              text[k] == SextetCode(ByteAt(key, g), ByteAt(key, g + 1), ByteAt(key, g + 2), k % 4) as char
    ensures text == Text(key)
  {
    EncodeFits(key, 6);
    assert Pow2(6) == 64;
    SymbolOfKey(key, 0);
    forall k | 0 <= k < 43 ensures text[k] == Text(key)[k] {
      SymbolOfKey(key, k);
    }
  }

  // ---------- atob ----------

  predicate IsSpace(c: char) { c == ' ' || c == '\t' || c == '\n' || c == '\r' || c as int == 12 }

  function WithoutSpaces(s: string): (r: string)
    ensures forall k :: 0 <= k < |r| ==> !IsSpace(r[k])
    ensures (forall k :: 0 <= k < |s| ==> !IsSpace(s[k])) ==> r == s
  {
    if s == "" then ""
    else if IsSpace(s[0]) then WithoutSpaces(s[1..])
    else [s[0]] + WithoutSpaces(s[1..])
  }

  function WithoutPadding(s: string): string {
    if |s| % 4 != 0 then s
    else if |s| >= 2 && s[|s| - 1] == '=' && s[|s| - 2] == '=' then s[..|s| - 2]
    else if |s| >= 1 && s[|s| - 1] == '=' then s[..|s| - 1]
    else s
  }

  /** `atob`: the forgiving decoder of the WHATWG Infra standard. */
  function Atob(encoded: string): (r: Option<seq<nat>>)
  {
    var data := WithoutPadding(WithoutSpaces(encoded));
    if |data| % 4 == 1 || exists k :: 0 <= k < |data| && Base64Value(data[k], false) == None then None
    else Some(Decode(seq(|data|, k requires 0 <= k < |data| => Base64Value(data[k], false).value), 6))
  }

  lemma SymbolRoundTrip(v: nat)
    requires v < 64
    ensures Base64Value(SymbolCode(v) as char, false) == Some(v) && !IsSpace(SymbolCode(v) as char)
    ensures SymbolCode(v) != 61
  {
  }

  lemma SymbolCounts(n: nat)
    ensures SymbolCount(n, 6) % 4 == (if n % 3 == 0 then 0 else n % 3 + 1)
  {
    var q, r := n / 3, n % 3;
    assert n == 3 * q + r;
    var extra := if r == 0 then 0 else r + 1;
    assert SymbolCount(n, 6) == 4 * q + extra;
    DivModUnique(SymbolCount(n, 6), q, extra, 4);
  }

  lemma PaddedLength(m: nat, n: int)
    requires n == 3 - (m + 3) % 4 && m % 4 != 1
    ensures 0 <= n <= 2 && (m + n) % 4 == 0
  {
  }

  lemma PaddingRemoved(body: string, text: string)
    requires text == body + seq(3 - (|body| + 3) % 4, _ => '=') && |body| % 4 != 1
    requires forall k :: 0 <= k < |body| ==> body[k] != '='
    ensures WithoutPadding(text) == body
  {
    var n := 3 - (|body| + 3) % 4;
    PaddedLength(|body|, n);
    assert |text| == |body| + n;
    assert text[..|body|] == body;
    if n >= 1 { assert text[|text| - 1] == '='; }
    if n == 2 { assert text[|text| - 2] == '='; }
    if n == 1 && |text| >= 2 { assert text[|text| - 2] == body[|body| - 1]; }
    if n == 0 && |text| >= 1 { assert text[|text| - 1] == body[|body| - 1]; }
  }

  /** Reading back what section 4 writes gives every byte string unchanged. */
  lemma AtobOfText(bytes: seq<nat>)
    requires Fits(bytes, 8)
    ensures Atob(Text(bytes)) == Some(bytes)
  {
    EncodeFits(bytes, 6);
    assert Pow2(6) == 64;
    var symbols, text := Encode(bytes, 6), Text(bytes);
    var body := Printed(symbols);
    forall k | 0 <= k < |body|
      ensures Base64Value(body[k], false) == Some(symbols[k]) && !IsSpace(body[k]) && body[k] != '='
    {
      SymbolRoundTrip(symbols[k]);
    }
    assert forall k :: 0 <= k < |text| ==> !IsSpace(text[k]);
    SymbolCounts(|bytes|);
    PaddingRemoved(body, text);
    assert seq(|body|, k requires 0 <= k < |body| => Base64Value(body[k], false).value) == symbols;
    RoundTrip(bytes, 6);
  }

  // ---------- keys ----------

  /** `keyToBase64`: eleven groups, the last one short, then a twelfth that falls off the end. */
  method KeyToBase64(key: seq<nat>) returns (text: string)
    requires Fits(key, 8)
    ensures |text| == 44 && text[43] == '='
    ensures forall k :: 0 <= k < 43 ==>
              var g := k / 4 * 3;
              text[k] == SextetCode(ByteAt(key, g), ByteAt(key, g + 1), ByteAt(key, g + 2), k % 4) as char
    ensures |key| == 32 ==> text == Text(key) && Atob(text) == Some(key)
  {
    hide SextetCode, ByteAt, Fits, Text, Atob;
    var base64 := new int[44](_ => 0);
    var i := 0;
    while 3 * i < 32
      invariant 0 <= i <= 11
      invariant forall k :: 0 <= k < 4 * i ==>
                  base64[k]
                  == SextetCode(ByteAt(key, k / 4 * 3), ByteAt(key, k / 4 * 3 + 1), ByteAt(key, k / 4 * 3 + 2), k % 4)
    {
      EncodeGroup(base64, i * 4, ByteAt(key, i * 3), ByteAt(key, i * 3 + 1), ByteAt(key, i * 3 + 2));
      i := i + 1;
    }
    EncodeGroup(base64, i * 4, ByteAt(key, i * 3), ByteAt(key, i * 3 + 1), 0);
    base64[43] := 61;
    forall k | 0 <= k < 43 ensures 0 <= base64[k] < 128 {
      CodeRange(ByteAt(key, k / 4 * 3), ByteAt(key, k / 4 * 3 + 1), ByteAt(key, k / 4 * 3 + 2), k % 4);
    }
    text := seq(44, k requires 0 <= k < 44 && 0 <= base64[k] < 128 reads base64 => base64[k] as char);
    if |key| == 32 {
      KeyTextIsBase64(key, text);
      AtobOfText(key);
    }
  }

  /** `keyFromBase64`. */
  method KeyFromBase64(encoded: string) returns (key: Option<seq<nat>>)
    ensures key == Atob(encoded)
  {
    hide Atob;
    var binary := Atob(encoded);
    if binary == None { return None; }
    var text := binary.value;
    var bytes := new nat[|text|](_ => 0);
    for i := 0 to |text|
      invariant forall k :: 0 <= k < i ==> bytes[k] == text[k]
    {
      bytes[i] := text[i];
    }
    assert bytes[..] == text;
    key := Some(bytes[..]);
  }

  lemma {:induction false} KeptCharacter(s: string, i: nat) returns (j: nat)
    requires i < |s| && !IsSpace(s[i])
    ensures j < |WithoutSpaces(s)| && WithoutSpaces(s)[j] == s[i]
  {
    if i == 0 {
      j := 0;
    } else {
      var k := KeptCharacter(s[1..], i - 1);
      j := if IsSpace(s[0]) then k else k + 1;
    }
  }

  /** `atob` refuses any character that is no symbol, no padding and no space. */
  lemma AtobRefuses(encoded: string, i: nat)
    requires i < |encoded| && !IsSpace(encoded[i]) && encoded[i] != '=' && Base64Value(encoded[i], false) == None
    ensures Atob(encoded) == None
  {
    var s := WithoutSpaces(encoded);
    var j := KeptCharacter(encoded, i);
    var data := WithoutPadding(s);
    assert j < |data| && data[j] == encoded[i];
  }

  lemma {:induction false} SpaceDropped(a: string, c: char, b: string)
    requires IsSpace(c)
    ensures WithoutSpaces(a + [c] + b) == WithoutSpaces(a + b)
  {
    if a == "" {
      assert ([c] + b)[1..] == b && "" + [c] + b == [c] + b && "" + b == b;
    } else {
      SpaceDropped(a[1..], c, b);
      assert (a + [c] + b)[1..] == a[1..] + [c] + b && (a + b)[1..] == a[1..] + b;
    }
  }

  /** `atob` skips tab, line feed, form feed, carriage return and blank, wherever they stand. */
  lemma AtobSkips(a: string, c: char, b: string)
    requires c as int in {9, 10, 12, 13, 32}
    ensures Atob(a + [c] + b) == Atob(a + b)
  {
    SpaceDropped(a, c, b);
  }
}
