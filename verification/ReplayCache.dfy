/** Replay protection of signed requests: `acceptReplay` behind `nodeauth.Verify`. */
module ReplayCache {
  import opened GoStrings
  import opened NodeAuth

  const RETENTION := 600

  function Key(secret: string, nonce: string): string { TrimSpace(secret) + "|" + TrimSpace(nonce) }

  /** Under one secret equal keys mean equal nonces, blanks aside; different secrets share a key only
      if one of them, or a nonce, has a bar. */
  lemma KeysAgreeExactly(secret: string, nonce: string, other: string, otherNonce: string)
    ensures TrimSpace(secret) == TrimSpace(other) ==>
              (Key(secret, nonce) == Key(other, otherNonce) <==> TrimSpace(nonce) == TrimSpace(otherNonce))
    ensures Lacks(TrimSpace(secret), '|') && Lacks(TrimSpace(other), '|') ==>
              (Key(secret, nonce) == Key(other, otherNonce)
               <==> TrimSpace(secret) == TrimSpace(other) && TrimSpace(nonce) == TrimSpace(otherNonce))
  {
    hide TrimSpace, Lacks;
    var a, b, x, y := TrimSpace(secret), TrimSpace(other), TrimSpace(nonce), TrimSpace(otherNonce);
    if Key(secret, nonce) == Key(other, otherNonce) {
      assert a + "|" + x == b + "|" + y;
      if a == b { assert (a + "|" + x)[|a| + 1..] == x && (b + "|" + y)[|b| + 1..] == y; }
      if Lacks(a, '|') && Lacks(b, '|') { SplitsOnce(a, b, x, y, '|'); }
    }
  }

  function Swept(v: map<string, int>, cutoff: int): map<string, int> {
    map k | k in v && v[k] >= cutoff :: v[k]
  }

  /** `acceptReplay` on values: the verdict and the next table. */
  function Accepts(v: map<string, int>, secret: string, nonce: string, now: int): bool {
    Key(secret, nonce) != "|" && Key(secret, nonce) !in Swept(v, now - RETENTION)
  }

  function After(v: map<string, int>, secret: string, nonce: string, timestamp: int, now: int): map<string, int> {
    if Key(secret, nonce) == "|" then v
    else if Accepts(v, secret, nonce, now) then Swept(v, now - RETENTION)[Key(secret, nonce) := timestamp]
    else Swept(v, now - RETENTION)
  }

  /** The signed headers of a request, trimmed and parsed. */
  datatype Headers = Headers(timestamp: int, nonce: string, signature: string, digest: string)

  /** Everything about a request that does not depend on a clock. */
  function Genuine(c: Crypto, secret: string, method_: string, path: string, body: seq<nat>, h: Headers): bool {
    secret != "" && h.nonce != "" && h.signature != "" && h.digest != "" && ToLower(h.digest) == ToLower(c.digest(body))
    && h.timestamp > 0
    && Sign(c, secret, Request(method_, path, body, h.timestamp, h.nonce, h.signature)) == TrimSpace(h.signature)
  }

  /** What the source asks of a request apart from clocks and table: every header present, the digest
      of the body in either letter case, and the keyed code of the five lines it signs. */
  lemma GenuineExactly(c: Crypto, secret: string, method_: string, path: string, body: seq<nat>, h: Headers)
    ensures Genuine(c, secret, method_, path, body, h)
            <==> secret != "" && h.nonce != "" && h.signature != "" && h.digest != "" && h.timestamp > 0
                 && ToLower(h.digest) == ToLower(c.digest(body))
                 && TrimSpace(h.signature)
                    == c.mac(secret, ToUpper(TrimSpace(method_)) + "\n" + TrimSpace(path) + "\n" + c.digest(body) + "\n"
                                     + DecimalInt(h.timestamp) + "\n" + TrimSpace(h.nonce))
  {
  }

  /** One request, with its two clock readings. */
  datatype Event = Event(secret: string, nonce: string, timestamp: int, genuine: bool, verifyNow: int, cacheNow: int)

  function Reaches(e: Event): bool { e.genuine && WithinSkew(e.verifyNow, e.timestamp) }

  function Accepted(v: map<string, int>, e: Event): bool { Reaches(e) && Accepts(v, e.secret, e.nonce, e.cacheNow) }

  function Next(v: map<string, int>, e: Event): map<string, int> {
    if Reaches(e) then After(v, e.secret, e.nonce, e.timestamp, e.cacheNow) else v
  }

  class Guard {
    var v: map<string, int>

    constructor ()
      ensures v == map[]
    {
      v := map[];
    }

    /** `acceptReplay`; now is the one clock read it makes, inside the lock. */
    method AcceptReplay(secret: string, nonce: string, timestamp: int, now: int) returns (ok: bool)
      modifies this
      ensures ok == Accepts(old(v), secret, nonce, now)
      ensures v == After(old(v), secret, nonce, timestamp, now)
    {
      var key := Key(secret, nonce);
      if key == "|" { return false; }
      var cutoff := now - RETENTION;
      var table := v;
      var left := v.Keys;
      while left != {}
        invariant left <= table.Keys
        invariant v == map k | k in table && (k in left || table[k] >= cutoff) :: table[k]
      {
        var k :| k in left;
        if v[k] < cutoff { v := v - {k}; }
        left := left - {k};
      }
      assert v == Swept(table, cutoff);
      if key in v { return false; }
      v := v[key := timestamp];
      ok := true;
    }

    /** `verifySignedAPIRequest`: the headers, the signature and its window, then the table. */
    method VerifySigned(c: Crypto, secret: string, method_: string, path: string, body: seq<nat>, h: Headers,
                        verifyNow: int, cacheNow: int) returns (ok: bool)
      modifies this
      ensures var genuine := Genuine(c, secret, method_, path, body, h);
              var e := Event(secret, h.nonce, h.timestamp, genuine, verifyNow, cacheNow);
              ok == Accepted(old(v), e) && v == Next(old(v), e)
      ensures ok ==> TrimSpace(h.signature)
                     == c.mac(secret, CanonicalString(c, method_, path, body, h.timestamp, h.nonce))
      ensures ok ==> ToLower(h.digest) == ToLower(c.digest(body))
      ensures ok ==> secret != "" && h.nonce != "" && h.signature != "" && h.timestamp > 0
      ensures ok && -LAST_EXPRESSIBLE <= verifyNow - h.timestamp <= LAST_EXPRESSIBLE ==>
                -300 <= verifyNow - h.timestamp <= 300
      ensures TrimSpace(h.signature) == c.mac(secret, CanonicalString(c, method_, path, body, h.timestamp, h.nonce))
              && h.digest != "" && ToLower(h.digest) == ToLower(c.digest(body))
              && secret != "" && h.nonce != "" && h.signature != "" && h.timestamp > 0
              && -300 <= verifyNow - h.timestamp <= 300
              && TrimSpace(secret) + "|" + TrimSpace(h.nonce) != "|"
              && TrimSpace(secret) + "|" + TrimSpace(h.nonce) !in old(v)
              ==> ok
    {
      if -LAST_EXPRESSIBLE <= verifyNow - h.timestamp <= LAST_EXPRESSIBLE { SkewIsWindow(verifyNow, h.timestamp); }
      if secret == "" || h.nonce == "" || h.signature == "" { return false; }
      if h.digest == "" || ToLower(h.digest) != ToLower(c.digest(body)) { return false; }
      var request := Request(method_, path, body, h.timestamp, h.nonce, h.signature);
      if !Verify(c, secret, request, verifyNow) { return false; }
      ok := AcceptReplay(secret, h.nonce, h.timestamp, cacheNow);
    }
  }

  // ---------- runs ----------

  /** The table after the first n events of a run that starts empty. */
  function Table(es: seq<Event>, n: nat): map<string, int>
    requires n <= |es|
  {
    if n == 0 then map[] else Next(Table(es, n - 1), es[n - 1])
  }

  ghost predicate IsAccepted(es: seq<Event>, i: nat)
    requires i < |es|
  {
    Accepted(Table(es, i), es[i])
  }

  /** A run whose table clock never goes back, whose requests spend at most `delay` seconds between
      their clock readings, and which ends before `latest`. */
  ghost predicate IsRun(es: seq<Event>, delay: int, latest: int) {
    && (forall i :: 0 <= i < |es| ==>
        0 <= es[i].verifyNow <= es[i].cacheNow <= es[i].verifyNow + delay && es[i].cacheNow <= latest)
    && (forall i :: 0 <= i < |es| ==> IsInt64(es[i].timestamp) && (es[i].genuine ==> es[i].timestamp > 0))
    && (forall i, j :: 0 <= i < j < |es| ==> es[i].cacheNow <= es[j].cacheNow)
  }

  ghost predicate SameRequest(d: Event, e: Event) {
    d.secret == e.secret && d.nonce == e.nonce && d.timestamp == e.timestamp
  }

  ghost predicate AtMostOnce(es: seq<Event>) {
    forall i, j :: 0 <= i < j < |es| && SameRequest(es[i], es[j]) && IsAccepted(es, i) ==> !IsAccepted(es, j)
  }

  /** An accepted request stays in the table until the clock is ten minutes past its timestamp. */
  lemma {:induction false} StaysInTable(es: seq<Event>, delay: int, latest: int, i: nat, n: nat)
    requires IsRun(es, delay, latest) && i < n <= |es| && IsAccepted(es, i)
    ensures var k := Key(es[i].secret, es[i].nonce);
            (k in Table(es, n) && Table(es, n)[k] == es[i].timestamp)
            || es[i].timestamp < es[n - 1].cacheNow - RETENTION
  {
    if n > i + 1 {
      StaysInTable(es, delay, latest, i, n - 1);
      assert es[n - 2].cacheNow <= es[n - 1].cacheNow;
    }
  }

  /** Whatever the table holds was put there by an accepted request. */
  lemma {:induction false} TableIsAccepted(es: seq<Event>, n: nat, key: string) returns (i: nat)
    requires n <= |es| && key in Table(es, n)
    ensures i < n && IsAccepted(es, i) && Key(es[i].secret, es[i].nonce) == key && es[i].timestamp == Table(es, n)[key]
  {
    var e := es[n - 1];
    if Accepted(Table(es, n - 1), e) && Key(e.secret, e.nonce) == key {
      i := n - 1;
    } else {
      i := TableIsAccepted(es, n - 1, key);
    }
  }

  /** Some earlier request with the key was accepted, and its timestamp is not ten minutes old yet. */
  ghost predicate Remembered(es: seq<Event>, n: nat, key: string, cutoff: int)
    requires n <= |es|
  {
    exists i :: 0 <= i < n && IsAccepted(es, i) && Key(es[i].secret, es[i].nonce) == key && es[i].timestamp >= cutoff
  }

  /** After the sweep the table knows exactly those keys. */
  lemma SweptIsRemembered(es: seq<Event>, delay: int, latest: int, n: nat)
    requires IsRun(es, delay, latest) && n < |es|
    ensures var key, cutoff := Key(es[n].secret, es[n].nonce), es[n].cacheNow - RETENTION;
            key in Swept(Table(es, n), cutoff) <==> Remembered(es, n, key, cutoff)
  {
    var key, cutoff := Key(es[n].secret, es[n].nonce), es[n].cacheNow - RETENTION;
    if key in Swept(Table(es, n), cutoff) {
      var i := TableIsAccepted(es, n, key);
    }
    if Remembered(es, n, key, cutoff) {
      var i :| 0 <= i < n && IsAccepted(es, i) && Key(es[i].secret, es[i].nonce) == key && es[i].timestamp >= cutoff;
      StaysInTable(es, delay, latest, i, n);
      assert es[n - 1].cacheNow <= es[n].cacheNow;
    }
  }

  /** Over the whole history: a request is accepted if and only if it is genuine, inside the window,
      has a key, and no accepted request with that key has a timestamp at most ten minutes old. */
  lemma AcceptedExactly(es: seq<Event>, delay: int, latest: int, n: nat)
    requires IsRun(es, delay, latest) && n < |es|
    ensures var key := Key(es[n].secret, es[n].nonce);
            IsAccepted(es, n) <==> Reaches(es[n]) && key != "|" && !Remembered(es, n, key, es[n].cacheNow - RETENTION)
  {
    hide Remembered;
    SweptIsRemembered(es, delay, latest, n);
  }

  const LAST_CLOCK := LAST_EXPRESSIBLE + 1

  /** With at most five minutes between the clock readings, no request is accepted twice; nor while
      the clock is so young that no entry can have expired. */
  lemma NeverTwice(es: seq<Event>, delay: int, latest: int)
    requires IsRun(es, delay, latest) && (delay <= 300 || latest <= RETENTION + 1) && latest <= LAST_CLOCK
    ensures AtMostOnce(es)
  {
    forall i, j | 0 <= i < j < |es| && SameRequest(es[i], es[j]) && IsAccepted(es, i)
      ensures !IsAccepted(es, j)
    {
      StaysInTable(es, delay, latest, i, j);
      assert es[j - 1].cacheNow <= es[j].cacheNow;
      var age := es[j].verifyNow - es[j].timestamp;
      if 300 < age { SkewIsWindow(es[j].verifyNow, es[j].timestamp); }
    }
  }

  lemma AcceptedBoth(es: seq<Event>)
    requires |es| == 2 && SameRequest(es[0], es[1]) && es[0].secret == "s" && es[0].nonce == "n"
    requires Reaches(es[0]) && Reaches(es[1]) && es[0].timestamp < es[1].cacheNow - RETENTION
    ensures !AtMostOnce(es)
  {
    assert Key("s", "n") == "s|n";
    assert Table(es, 0) == map[];
    assert IsAccepted(es, 0);
    assert Table(es, 1) == Next(Table(es, 0), es[0]);
    assert IsAccepted(es, 1);
  }

  /** Ten minutes of retention fail a request that waits 301 seconds for the table. */
  lemma TwiceWhenSlow(delay: int, latest: int) returns (es: seq<Event>)
    requires 301 <= delay && RETENTION + 1 < latest
    ensures IsRun(es, delay, latest) && !AtMostOnce(es)
  {
    var e := Event("s", "n", 1, true, 1, 1);
    es := [e, e.(verifyNow := 301, cacheNow := 602)];
    SkewIsWindow(1, 1);
    SkewIsWindow(301, 1);
    AcceptedBoth(es);
  }

  /** After the clock passes what a duration can express, ancient requests pass the skew test and
      leave the table at once. */
  lemma TwiceWhenLate(delay: int, latest: int) returns (es: seq<Event>)
    requires 0 <= delay && LAST_CLOCK < latest
    ensures IsRun(es, delay, latest) && !AtMostOnce(es)
  {
    var e := Event("s", "n", 1, true, LAST_CLOCK + 1, LAST_CLOCK + 1);
    es := [e, e];
    SkewOverflows(LAST_CLOCK + 1, 1);
    AcceptedBoth(es);
  }

  /** So at-most-once acceptance holds over all runs exactly when requests wait at most 300 seconds
      (or the clock ends within the first ten minutes of its epoch) and the clock stays below the
      year 2262. */
  lemma AtMostOnceExactly(delay: int, latest: int)
    requires 0 <= delay
    ensures (forall es: seq<Event> {:trigger IsRun(es, delay, latest)} :: IsRun(es, delay, latest) ==> AtMostOnce(es))
            <==> (delay <= 300 || latest <= RETENTION + 1) && latest <= LAST_CLOCK
  {
    if delay > 300 && latest > RETENTION + 1 {
      var es := TwiceWhenSlow(delay, latest);
    } else if latest > LAST_CLOCK {
      var es := TwiceWhenLate(delay, latest);
    } else {
      forall es: seq<Event> | IsRun(es, delay, latest) ensures AtMostOnce(es) {
        NeverTwice(es, delay, latest);
      }
    }
  }
}
