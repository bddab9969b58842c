/** Signed node requests: `nodeauth.CanonicalString` and `Verify`, with 64-bit arithmetic. */
module NodeAuth {
  import opened GoStrings

  const TWO_63 := 0x8000_0000_0000_0000
  const SECOND := 1_000_000_000
  const SKEW := 300 * SECOND

  /** What an int64 holds after arithmetic. */
  function Int64(x: int): int {
    var m := x % (2 * TWO_63);
    if m >= TWO_63 then m - 2 * TWO_63 else m
  }

  predicate IsInt64(x: int) { -TWO_63 <= x < TWO_63 }

  datatype Request =
    Request(method_: string, path: string, body: seq<nat>, timestamp: int, nonce: string, signature: string)

  /** SHA-256 in hex and keyed HMAC-SHA-256 in hex, left uninterpreted. */
  datatype Crypto = Crypto(digest: seq<nat> -> string, mac: (string, string) -> string)

  /** `CanonicalString`. */
  function CanonicalString(c: Crypto, method_: string, path: string, body: seq<nat>, timestamp: int,
                           nonce: string): string {
    ToUpper(TrimSpace(method_)) + "\n" + TrimSpace(path) + "\n" + c.digest(body) + "\n"
    + DecimalInt(timestamp) + "\n" + TrimSpace(nonce)
  }

  function Sign(c: Crypto, secret: string, r: Request): string {
    c.mac(secret, CanonicalString(c, r.method_, r.path, r.body, r.timestamp, r.nonce))
  }

  /** The window test of `Verify` as it is written: the difference in seconds is made a duration
      by a multiplication in int64. */
  function WithinSkew(now: int, timestamp: int): bool {
    var d := Int64(now - timestamp);
    var delta := if d < 0 then Int64(-d) else d;
    !(Int64(delta * SECOND) > SKEW)
  }

  /** `Verify` with the five-minute skew its caller passes. */
  function Verify(c: Crypto, secret: string, r: Request, now: int): bool {
    secret != "" && r.nonce != "" && r.signature != "" && r.timestamp > 0
    && WithinSkew(now, r.timestamp) && Sign(c, secret, r) == TrimSpace(r.signature)
  }

  /** The largest age, in seconds, that a duration can express. */
  const LAST_EXPRESSIBLE := 9_223_372_036

  lemma Int64Small(x: int)
    requires IsInt64(x)
    ensures Int64(x) == x
  {
  }

  /** Up to that age the test means what it says: at most 300 seconds either way. */
  lemma SkewIsWindow(now: int, timestamp: int)
    requires -LAST_EXPRESSIBLE <= now - timestamp <= LAST_EXPRESSIBLE
    ensures WithinSkew(now, timestamp) <==> -300 <= now - timestamp <= 300
  {
    Int64Small(now - timestamp);
    Int64Small(timestamp - now);
    var delta := if now < timestamp then timestamp - now else now - timestamp;
    Int64Small(delta * SECOND);
  }

  /** One second later the product overflows to a negative duration, and the request passes. */
  lemma SkewOverflows(now: int, timestamp: int)
    requires now - timestamp == LAST_EXPRESSIBLE + 1 || timestamp - now == LAST_EXPRESSIBLE + 1
    ensures WithinSkew(now, timestamp)
  {
    Int64Small(now - timestamp);
    Int64Small(timestamp - now);
    assert Int64((LAST_EXPRESSIBLE + 1) * SECOND) < 0;
  }

  /** So the test is a 300-second window for all ages up to a bound exactly when the bound is at
      most 9223372036 seconds. */
  lemma SkewIsWindowExactly(bound: int)
    requires 0 <= bound
    ensures (forall now, timestamp {:trigger WithinSkew(now, timestamp)} :: -bound <= now - timestamp <= bound ==>
               (WithinSkew(now, timestamp) <==> -300 <= now - timestamp <= 300))
            <==> bound <= LAST_EXPRESSIBLE
  {
    if bound <= LAST_EXPRESSIBLE {
      forall now, timestamp | -bound <= now - timestamp <= bound
        ensures WithinSkew(now, timestamp) <==> -300 <= now - timestamp <= 300
      {
        SkewIsWindow(now, timestamp);
      }
    } else {
      SkewOverflows(LAST_EXPRESSIBLE + 1, 0);
      assert WithinSkew(LAST_EXPRESSIBLE + 1, 0);
    }
  }

  // ---------- what a signature covers ----------

  predicate OneLine(s: string) { Lacks(s, '\n') }

  /** The first line feed splits a joined string in only one way. */
  lemma FirstLine(a: string, b: string, x: string, y: string)
    requires OneLine(a) && OneLine(b) && a + "\n" + x == b + "\n" + y
    ensures a == b && x == y
  {
    SplitsOnce(a, b, x, y, '\n');
  }

  lemma DigitsAreOneLine(n: int)
    ensures OneLine(DecimalInt(n))
  {
  }

  /** The last line feed does so too. */
  lemma LastLine(a: string, b: string, x: string, y: string)
    requires OneLine(a) && OneLine(b) && x + "\n" + a == y + "\n" + b
    ensures a == b && x == y
  {
    var s, t := x + "\n" + a, y + "\n" + b;
    assert forall k :: |x| < k < |s| ==> s[k] == a[k - |x| - 1];
    assert forall k :: |y| < k < |t| ==> t[k] == b[k - |y| - 1];
    assert s[|x|] == '\n' && t[|y|] == '\n';
    assert s[|x| + 1..] == a && t[|y| + 1..] == b;
    assert s[..|x|] == x && t[..|y|] == y;
  }

  /** The five lines of a canonical string. */
  datatype Lines = Lines(verb: string, path: string, digest: string, time: string, nonce: string) {
    function Joined(): string { verb + "\n" + path + "\n" + digest + "\n" + time + "\n" + nonce }
  }

  function LinesOf(c: Crypto, r: Request): (l: Lines)
    ensures l.Joined() == CanonicalString(c, r.method_, r.path, r.body, r.timestamp, r.nonce)
  {
    Lines(ToUpper(TrimSpace(r.method_)), TrimSpace(r.path), c.digest(r.body), DecimalInt(r.timestamp),
          TrimSpace(r.nonce))
  }

  lemma FiveLines(m: string, p: string, d: string, t: string, n: string)
    ensures m + "\n" + p + "\n" + d + "\n" + t + "\n" + n == m + "\n" + (p + "\n" + (d + "\n" + (t + "\n" + n)))
  {
  }

  /** With a one-line method, digest and time, and either the path or the nonce on one line, the
      lines can be told apart. */
  lemma LinesInjective(l: Lines, m: Lines)
    requires l.Joined() == m.Joined()
    requires OneLine(l.verb) && OneLine(m.verb) && OneLine(l.digest) && OneLine(m.digest)
    requires OneLine(l.time) && OneLine(m.time)
    requires (OneLine(l.path) && OneLine(m.path)) || (OneLine(l.nonce) && OneLine(m.nonce))
    ensures l == m
  {
    hide OneLine;
    FiveLines(l.verb, l.path, l.digest, l.time, l.nonce);
    FiveLines(m.verb, m.path, m.digest, m.time, m.nonce);
    if OneLine(l.path) && OneLine(m.path) {
      FirstLine(l.verb, m.verb, l.path + "\n" + (l.digest + "\n" + (l.time + "\n" + l.nonce)),
          m.path + "\n" + (m.digest + "\n" + (m.time + "\n" + m.nonce)));
      FirstLine(l.path, m.path, l.digest + "\n" + (l.time + "\n" + l.nonce),
          m.digest + "\n" + (m.time + "\n" + m.nonce));
      FirstLine(l.digest, m.digest, l.time + "\n" + l.nonce, m.time + "\n" + m.nonce);
      FirstLine(l.time, m.time, l.nonce, m.nonce);
    } else {
      LastLine(l.nonce, m.nonce, l.verb + "\n" + l.path + "\n" + l.digest + "\n" + l.time,
          m.verb + "\n" + m.path + "\n" + m.digest + "\n" + m.time);
      LastLine(l.time, m.time, l.verb + "\n" + l.path + "\n" + l.digest, m.verb + "\n" + m.path + "\n" + m.digest);
      LastLine(l.digest, m.digest, l.verb + "\n" + l.path, m.verb + "\n" + m.path);
      FirstLine(l.verb, m.verb, l.path, m.path);
    }
  }

  lemma UpperKeepsLine(s: string)
    requires OneLine(s)
    ensures OneLine(ToUpper(s))
  {
  }

  lemma LinesKept(c: Crypto, r: Request)
    requires OneLine(r.method_)
    ensures OneLine(LinesOf(c, r).verb) && OneLine(LinesOf(c, r).time)
    ensures OneLine(r.path) ==> OneLine(LinesOf(c, r).path)
    ensures OneLine(r.nonce) ==> OneLine(LinesOf(c, r).nonce)
  {
    hide Lacks, DecimalInt, TrimSpace, ToUpper;
    TrimKeepsLacks(r.method_, '\n');
    UpperKeepsLine(TrimSpace(r.method_));
    DigitsAreOneLine(r.timestamp);
    if OneLine(r.path) { TrimKeepsLacks(r.path, '\n'); }
    if OneLine(r.nonce) { TrimKeepsLacks(r.nonce, '\n'); }
  }

  /** Requests with one-line methods, and one-line paths or nonces, that sign the same string agree
      in everything the string is made of: different requests never share a canonical string. */
  lemma CanonicalInjective(c: Crypto, r: Request, s: Request)
    requires OneLine(r.method_) && OneLine(s.method_) && OneLine(c.digest(r.body)) && OneLine(c.digest(s.body))
    requires (OneLine(r.path) && OneLine(s.path)) || (OneLine(r.nonce) && OneLine(s.nonce))
    requires CanonicalString(c, r.method_, r.path, r.body, r.timestamp, r.nonce)
               == CanonicalString(c, s.method_, s.path, s.body, s.timestamp, s.nonce)
    ensures LinesOf(c, r) == LinesOf(c, s) && r.timestamp == s.timestamp
  {
    hide OneLine, DecimalInt, CanonicalString;
    LinesKept(c, r);
    LinesKept(c, s);
    LinesInjective(LinesOf(c, r), LinesOf(c, s));
    DecimalIntInjective(r.timestamp, s.timestamp);
  }
}
