/** RFC 4648 as regrouping of a bit stream: bytes are eight bits each, symbols of base 64 and
    base 32 are six and five, the most significant bit first. */
module Rfc4648 {
  import opened Ascii
  import opened JsNumber
  import opened Options

  /** Bit j of a w-bit number, counted from the most significant one. */
  function Digit(x: nat, w: nat, j: nat): (b: nat)
    requires j < w
    ensures b <= 1
  {
    x / Pow2(w - 1 - j) % 2
  }

  lemma Place(n: nat, w: nat, j: nat)
    requires w > 0 && j < n * w
    ensures 0 <= j / w < n && 0 <= j % w < w && j == j / w * w + j % w
  {
    var d := j / w - n;
    assert j == j / w * w + j % w;
    assert d * w == j / w * w - n * w;
    MulAway(d, w);
    MulAway(j / w, w);
  }

  function BitAt(values: seq<nat>, w: nat, j: nat): (b: nat)
    requires w > 0 && j < |values| * w
    ensures b <= 1
  {
    Place(|values|, w, j);
    Digit(values[j / w], w, j % w)
  }

  /** The bits of the values, each w bits wide. */
  function Stream(values: seq<nat>, w: nat): (bits: seq<nat>)
    requires w > 0
    ensures |bits| == |values| * w
    ensures forall j :: 0 <= j < |bits| ==> bits[j] <= 1
  {
    seq(|values| * w, j requires 0 <= j < |values| * w => BitAt(values, w, j))
  }

  /** The number formed by n bits from lo on. */
  function Word(bits: seq<nat>, lo: nat, n: nat): nat
    requires lo + n <= |bits|
    decreases |bits|, n
  {
    if n == 0 then 0 else 2 * Word(bits, lo, n - 1) + bits[lo + n - 1]
  }

  /** How many symbols of w bits hold n bytes. */
  function SymbolCount(n: nat, w: nat): nat requires w > 0 { (8 * n + w - 1) / w }

  lemma CountFits(n: nat, w: nat)
    requires 0 < w <= 8
    ensures 8 * n <= SymbolCount(n, w) * w < 8 * n + w
    ensures SymbolCount(n, w) * w / 8 == n
  {
    var x := 8 * n + w - 1;
    assert x == x / w * w + x % w;
  }

  function Zeros(n: nat): (z: seq<nat>)
    ensures |z| == n && forall j :: 0 <= j < n ==> z[j] == 0
  {
    seq(n, _ => 0)
  }

  lemma Within(k: nat, n: nat, w: nat)
    requires k < n
    ensures k * w + w <= n * w
  {
    MulAway(k + 1 - n, if w == 0 then 1 else w);
    assert (k + 1 - n) * w == k * w + w - n * w;
  }

  /** Section 4 and section 6: the symbols of a byte string, zero bits filling the last one. */
  function Encode(bytes: seq<nat>, w: nat): (symbols: seq<nat>)
    requires 0 < w <= 8
    ensures |symbols| == SymbolCount(|bytes|, w)
  {
    CountFits(|bytes|, w);
    var bits := Stream(bytes, 8) + Zeros(SymbolCount(|bytes|, w) * w - 8 * |bytes|);
    seq(SymbolCount(|bytes|, w), k requires 0 <= k < SymbolCount(|bytes|, w) =>
      Within(k, SymbolCount(|bytes|, w), w); Word(bits, k * w, w))
  }

  /** The bytes of a symbol string; bits that do not fill a byte are dropped. */
  function Decode(symbols: seq<nat>, w: nat): (bytes: seq<nat>)
    requires w > 0
  {
    var bits := Stream(symbols, w);
    seq(|bits| / 8, i requires 0 <= i < |bits| / 8 => Word(bits, i * 8, 8))
  }

  predicate Fits(values: seq<nat>, w: nat) { forall k :: 0 <= k < |values| ==> values[k] < Pow2(w) }

  lemma {:induction false} WordRange(bits: seq<nat>, lo: nat, n: nat)
    requires lo + n <= |bits| && forall j :: 0 <= j < |bits| ==> bits[j] <= 1
    ensures Word(bits, lo, n) < Pow2(n)
  {
    if n != 0 { WordRange(bits, lo, n - 1); }
  }

  lemma DoubleSum(h: int, p: int, x: int)
    ensures 2 * (h * p + x) == h * (2 * p) + 2 * x
  {
  }

  lemma {:induction false} WordConcat(bits: seq<nat>, lo: nat, m: nat, n: nat)
    requires lo + m + n <= |bits|
    ensures Word(bits, lo, m + n) == Word(bits, lo, m) * Pow2(n) + Word(bits, lo + m, n)
    decreases n
  {
    if n != 0 {
      WordConcat(bits, lo, m, n - 1);
      assert Word(bits, lo, m + n) == 2 * Word(bits, lo, m + n - 1) + bits[lo + m + n - 1];
      DoubleSum(Word(bits, lo, m), Pow2(n - 1), Word(bits, lo + m, n - 1));
    }
  }

  /** A word remembers each of its bits. */
  lemma {:induction false} WordBit(bits: seq<nat>, lo: nat, n: nat, j: nat)
    requires lo + n <= |bits| && j < n && forall i :: 0 <= i < |bits| ==> bits[i] <= 1
    ensures Digit(Word(bits, lo, n), n, j) == bits[lo + j]
  {
    var h, b := Word(bits, lo, n - 1), bits[lo + n - 1];
    assert (2 * h + b) / 2 == h && (2 * h + b) % 2 == b;
    if j == n - 1 {
      assert Pow2(0) == 1 && (2 * h + b) / 1 == 2 * h + b;
    } else {
      WordBit(bits, lo, n - 1, j);
      ModPow2Step(2 * h + b, n - 2 - j);
    }
  }

  lemma Halves(y: nat)
    ensures y == 2 * (y / 2) + y % 2
  {
  }

  lemma {:induction false} DivPow2Succ(x: nat, k: nat)
    ensures x / Pow2(k + 1) == x / Pow2(k) / 2
  {
    ModPow2Step(x, k);
    if k == 0 {
      assert Pow2(0) == 1 && x / 1 == x && x / 2 / 1 == x / 2;
    } else {
      DivPow2Succ(x / 2, k - 1);
      ModPow2Step(x, k - 1);
    }
  }

  lemma HalfStep(x: nat, k: nat)
    ensures x / Pow2(k) == 2 * (x / Pow2(k + 1)) + x / Pow2(k) % 2
  {
    DivPow2Succ(x, k);
    Halves(x / Pow2(k));
  }

  /** Bits that come from a number put it together again. */
  lemma {:induction false} WordOfBits(bits: seq<nat>, lo: nat, n: nat, w: nat, x: nat)
    requires lo + n <= |bits| && n <= w
    requires forall j :: lo <= j < lo + n ==> bits[j] == Digit(x, w, j - lo)
    requires x < Pow2(w)
    ensures Word(bits, lo, n) == x / Pow2(w - n)
  {
    if n == 0 {
      DivModUnique(x, 0, x, Pow2(w));
    } else {
      WordOfBits(bits, lo, n - 1, w, x);
      assert bits[lo + n - 1] == Digit(x, w, n - 1);
      HalfStep(x, w - n);
    }
  }

  lemma Locate(i: nat, w: nat, t: nat)
    requires w > 0 && t < w
    ensures (i * w + t) / w == i && (i * w + t) % w == t
  {
    DivModUnique(i * w + t, i, t, w);
  }

  /** Reading values back from their stream. */
  lemma StreamDigit(values: seq<nat>, w: nat, k: nat, t: nat)
    requires w > 0 && k < |values| && t < w
    ensures k * w + t < |values| * w && Stream(values, w)[k * w + t] == Digit(values[k], w, t)
  {
    hide Digit;
    Within(k, |values|, w);
    Locate(k, w, t);
  }

  lemma WordOfStream(values: seq<nat>, w: nat, k: nat)
    requires w > 0 && k < |values| && values[k] < Pow2(w)
    ensures k * w + w <= |values| * w
    ensures Word(Stream(values, w), k * w, w) == values[k]
  {
    hide Word, Digit, Stream;
    Within(k, |values|, w);
    var bits := Stream(values, w);
    forall j | k * w <= j < k * w + w
      ensures bits[j] == Digit(values[k], w, j - k * w)
    {
      StreamDigit(values, w, k, j - k * w);
    }
    WordOfBits(bits, k * w, w, w, values[k]);
    assert Pow2(0) == 1;
    DivModUnique(values[k], values[k], 0, 1);
  }

  /** The stream of the symbols is the stream of the bytes, zeros following. */
  lemma StreamOfEncode(bytes: seq<nat>, w: nat)
    requires 0 < w <= 8
    ensures Stream(Encode(bytes, w), w) == Stream(bytes, 8) + Zeros(SymbolCount(|bytes|, w) * w - 8 * |bytes|)
  {
    var n := SymbolCount(|bytes|, w);
    CountFits(|bytes|, w);
    var bits := Stream(bytes, 8) + Zeros(n * w - 8 * |bytes|);
    var symbols := Encode(bytes, w);
    forall j | 0 <= j < n * w
      ensures Stream(symbols, w)[j] == bits[j]
    {
      Place(n, w, j);
      Within(j / w, n, w);
      WordBit(bits, j / w * w, w, j % w);
    }
  }

  lemma {:induction false} WordFrame(s: seq<nat>, t: seq<nat>, lo: nat, n: nat)
    requires lo + n <= |s| && lo + n <= |t| && forall j :: lo <= j < lo + n ==> s[j] == t[j]
    ensures Word(s, lo, n) == Word(t, lo, n)
  {
    if n != 0 { WordFrame(s, t, lo, n - 1); }
  }

  /** Decoding undoes encoding, for every byte string and every symbol width. */
  lemma RoundTrip(bytes: seq<nat>, w: nat)
    requires 0 < w <= 8 && Fits(bytes, 8)
    ensures Decode(Encode(bytes, w), w) == bytes
  {
    StreamOfEncode(bytes, w);
    CountFits(|bytes|, w);
    var bits, stream := Stream(bytes, 8) + Zeros(SymbolCount(|bytes|, w) * w - 8 * |bytes|), Stream(bytes, 8);
    forall i | 0 <= i < |bytes|
      ensures Word(bits, i * 8, 8) == bytes[i]
    {
      WordOfStream(bytes, 8, i);
      WordFrame(stream, bits, i * 8, 8);
    }
  }

  /** Symbols of w bits never exceed w bits. */
  lemma EncodeFits(bytes: seq<nat>, w: nat)
    requires 0 < w <= 8
    ensures Fits(Encode(bytes, w), w)
  {
    var n := SymbolCount(|bytes|, w);
    CountFits(|bytes|, w);
    var bits := Stream(bytes, 8) + Zeros(n * w - 8 * |bytes|);
    forall k | 0 <= k < n
      ensures Encode(bytes, w)[k] < Pow2(w)
    {
      Within(k, n, w);
      WordRange(bits, k * w, w);
    }
  }

  // ---------- base 64 ----------

  /** Table 1, and Table 2 for the alphabet that is safe in URLs. */
  function Base64Char(v: nat, url: bool): (c: char)
    requires v < 64
  {
    if v < 26 then (65 + v) as char
    else if v < 52 then (97 + v - 26) as char
    else if v < 62 then (48 + v - 52) as char
    else if v == 62 then (if url then '-' else '+')
    else if url then '_' else '/'
  }

  function Base64Value(c: char, url: bool): Option<nat> {
    if 'A' <= c <= 'Z' then Some(c as int - 65)
    else if 'a' <= c <= 'z' then Some(c as int - 71)
    else if '0' <= c <= '9' then Some(c as int + 4)
    else if c == (if url then '-' else '+') then Some(62)
    else if c == (if url then '_' else '/') then Some(63)
    else None
  }

  /** A reader of either alphabet reads a character of the other as the same value or not at all. */
  lemma Base64ValueOfChar(v: nat, url: bool, read: bool)
    requires v < 64
    ensures Base64Value(Base64Char(v, url), url) == Some(v)
    ensures Base64Value(Base64Char(v, url), read) == None || Base64Value(Base64Char(v, url), read) == Some(v)
  {
  }

  /** Both alphabets, letter by letter. */
  lemma AlphabetsAreTables(v: nat)
    requires v < 64
    ensures |UPPER + LOWER + DIGITS + "+/"| == |UPPER + LOWER + DIGITS + "-_"| == 64
    ensures Base64Char(v, false) == (UPPER + LOWER + DIGITS + "+/")[v]
    ensures Base64Char(v, true) == (UPPER + LOWER + DIGITS + "-_")[v]
  {
    LettersInOrder(if v < 26 then v else if v < 52 then v - 26 else if v < 62 then v - 52 else 0);
  }
}
