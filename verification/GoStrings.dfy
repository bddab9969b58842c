/** The string functions of the Go standard library that the hub relies on. */
module GoStrings {
  import opened Ascii

  predicate Lacks(s: string, c: char) { forall k :: 0 <= k < |s| ==> s[k] != c }

  /** unicode.IsSpace. */
  predicate IsSpace(c: char) {
    var n := c as int;
    9 <= n <= 13 || n == 32 || n == 0x85 || n == 0xA0 || n == 0x1680 || 0x2000 <= n <= 0x200a
    || n == 0x2028 || n == 0x2029 || n == 0x202f || n == 0x205f || n == 0x3000
  }

  function TrimLeft(s: string): (r: string)
    ensures r != "" ==> !IsSpace(r[0])
    ensures |s| > 0 && !IsSpace(s[0]) ==> r == s
  {
    if s != "" && IsSpace(s[0]) then TrimLeft(s[1..]) else s
  }

  function TrimRight(s: string): (r: string)
    ensures |r| <= |s|
    ensures r != "" ==> r[0] == s[0] && !IsSpace(r[|r| - 1])
    ensures |s| > 0 && !IsSpace(s[|s| - 1]) ==> r == s
  {
    if s != "" && IsSpace(s[|s| - 1]) then TrimRight(s[..|s| - 1]) else s
  }

  /** strings.TrimSpace. */
  function TrimSpace(s: string): (r: string)
    ensures r != "" ==> !IsSpace(r[0]) && !IsSpace(r[|r| - 1])
  {
    TrimRight(TrimLeft(s))
  }

  lemma TrimIdempotent(s: string)
    ensures TrimSpace(TrimSpace(s)) == TrimSpace(s)
  {
  }

  lemma TrimNothing(s: string)
    requires s != "" ==> !IsSpace(s[0]) && !IsSpace(s[|s| - 1])
    ensures TrimSpace(s) == s
  {
  }

  /** strings.ReplaceAll(s, c, "") for one character. */
  function Without(s: string, c: char): (r: string)
    ensures (forall k :: 0 <= k < |s| ==> s[k] != c) ==> r == s
    ensures |r| <= |s|
  {
    if s == "" then "" else if s[0] == c then Without(s[1..], c) else [s[0]] + Without(s[1..], c)
  }

  /** strings.ToLower and strings.ToUpper on ASCII letters; other characters stay. */
  function LowerChar(c: char): char { if 'A' <= c <= 'Z' then (c as int + 32) as char else c }
  function UpperChar(c: char): char { if 'a' <= c <= 'z' then (c as int - 32) as char else c }
  function ToLower(s: string): (r: string)
    ensures |r| == |s| && forall k :: 0 <= k < |s| ==> r[k] == LowerChar(s[k])
  {
    seq(|s|, k requires 0 <= k < |s| => LowerChar(s[k]))
  }
  function ToUpper(s: string): (r: string)
    ensures |r| == |s| && forall k :: 0 <= k < |s| ==> r[k] == UpperChar(s[k])
  {
    seq(|s|, k requires 0 <= k < |s| => UpperChar(s[k]))
  }

  // ---------- what the functions mean ----------

  predicate IsBlank(s: string) { forall k :: 0 <= k < |s| ==> IsSpace(s[k]) }

  lemma {:induction false} TrimLeftCuts(s: string) returns (a: string)
    ensures IsBlank(a) && s == a + TrimLeft(s)
  {
    if s != "" && IsSpace(s[0]) {
      var rest := TrimLeftCuts(s[1..]);
      a := [s[0]] + rest;
    } else {
      a := "";
    }
  }

  lemma {:induction false} TrimRightCuts(s: string) returns (b: string)
    ensures IsBlank(b) && s == TrimRight(s) + b
  {
    if s != "" && IsSpace(s[|s| - 1]) {
      var rest := TrimRightCuts(s[..|s| - 1]);
      b := rest + [s[|s| - 1]];
      assert s == s[..|s| - 1] + [s[|s| - 1]];
    } else {
      b := "";
    }
  }

  /** The change of case goes letter by letter and leaves everything else. */
  lemma CasesAreTables(c: char, i: nat)
    ensures c !in UPPER ==> LowerChar(c) == c
    ensures c !in LOWER ==> UpperChar(c) == c
    ensures |UPPER| == |LOWER| == 26
    ensures i < 26 ==> LowerChar(UPPER[i]) == LOWER[i] && UpperChar(LOWER[i]) == UPPER[i]
  {
    UpperRange(c);
    LowerRange(c);
    LettersInOrder(i);
  }

  /** Trimming takes blanks off both ends, all of them, and nothing else. */
  lemma TrimCutsBlanks(s: string) returns (a: string, b: string)
    ensures IsBlank(a) && IsBlank(b) && s == a + TrimSpace(s) + b
    ensures TrimSpace(s) != "" ==> !IsSpace(TrimSpace(s)[0]) && !IsSpace(TrimSpace(s)[|TrimSpace(s)| - 1])
  {
    a := TrimLeftCuts(s);
    b := TrimRightCuts(TrimLeft(s));
  }

  lemma {:induction false} WithoutMore(s: string, x: char, c: char)
    ensures Without(s + [x], c) == Without(s, c) + if x == c then "" else [x]
    ensures Without("", c) == ""
  {
    if s == "" {
      assert "" + [x] == [x];
    } else {
      WithoutMore(s[1..], x, c);
      assert (s + [x])[1..] == s[1..] + [x];
    }
  }

  /** The first separator splits a joined string in only one way. */
  lemma SplitsOnce(a: string, b: string, x: string, y: string, c: char)
    requires Lacks(a, c) && Lacks(b, c) && a + [c] + x == b + [c] + y
    ensures a == b && x == y
  {
    var s, t := a + [c] + x, b + [c] + y;
    assert s[|a|] == c && t[|b|] == c;
    assert forall k :: 0 <= k < |a| ==> s[k] == a[k];
    assert forall k :: 0 <= k < |b| ==> t[k] == b[k];
    assert |a| == |b|;
    assert s[..|a|] == a && t[..|b|] == b;
    assert s[|a| + 1..] == x && t[|b| + 1..] == y;
  }

  lemma TrimKeepsLacks(s: string, c: char)
    requires Lacks(s, c)
    ensures Lacks(TrimSpace(s), c)
  {
    var a, b := TrimCutsBlanks(s);
    var t := TrimSpace(s);
    forall k | 0 <= k < |t| ensures t[k] != c {
      assert s[|a| + k] == t[k];
    }
  }

  // ---------- decimal numbers ----------

  predicate IsDigit(c: char) { '0' <= c <= '9' }

  /** %d on a natural number. */
  function Decimal(n: nat): (s: string)
    ensures |s| >= 1 && forall k :: 0 <= k < |s| ==> IsDigit(s[k])
  {
    var last := [(48 + n % 10) as char];
    if n < 10 then last else Decimal(n / 10) + last
  }

  function DecimalInt(n: int): (s: string)
    ensures |s| >= 1 && (s[0] == '-' <==> n < 0)
    ensures forall k :: 0 <= k < |s| ==> IsDigit(s[k]) || s[k] == '-'
  {
    if n < 0 then "-" + Decimal(-n) else Decimal(n)
  }

  function DecimalValue(s: string): int {
    if s == "" then 0 else DecimalValue(s[..|s| - 1]) * 10 + (s[|s| - 1] as int - 48)
  }

  lemma ValueOfLastDigit(s: string, c: char)
    ensures DecimalValue(s + [c]) == DecimalValue(s) * 10 + (c as int - 48)
  {
    assert (s + [c])[..|s|] == s;
  }

  lemma EmptyValue()
    ensures DecimalValue("") == 0
  {
  }

  lemma {:induction false} DecimalRoundTrip(n: nat)
    ensures DecimalValue(Decimal(n)) == n
  {
    hide DecimalValue;
    var last := (48 + n % 10) as char;
    assert DecimalValue("") == 0 by { EmptyValue(); }
    if n < 10 {
      assert Decimal(n) == "" + [last];
      ValueOfLastDigit("", last);
    } else {
      DecimalRoundTrip(n / 10);
      assert Decimal(n) == Decimal(n / 10) + [last];
      ValueOfLastDigit(Decimal(n / 10), last);
    }
  }

  /** Only zero starts with a zero. */
  lemma {:induction false} NoLeadingZero(n: nat)
    ensures Decimal(n)[0] == '0' <==> n == 0
  {
    if n >= 10 { NoLeadingZero(n / 10); }
  }

  lemma DecimalInjective(m: nat, n: nat)
    requires Decimal(m) == Decimal(n)
    ensures m == n
  {
    DecimalRoundTrip(m);
    DecimalRoundTrip(n);
  }

  lemma DecimalIntInjective(m: int, n: int)
    requires DecimalInt(m) == DecimalInt(n)
    ensures m == n
  {
    if m < 0 && n < 0 {
      assert DecimalInt(m)[1..] == Decimal(-m) && DecimalInt(n)[1..] == Decimal(-n);
      DecimalInjective(-m, -n);
    } else if m >= 0 {
      DecimalInjective(m, n);
    }
  }
}
