/** The login limiter, against a specification that remembers everything. */
module LoginLimiter {
  import opened GoStrings

  datatype Limits = Limits(maxFailures: int, window: int, cooldown: int)

  /** What happened to a key; successes carry no time because the limiter reads no clock then. */
  datatype Event = Failure(key: string, at: int) | Success(key: string)

  // ---------- the specification over the whole history ----------

  /** How many of the times from index i on lie at or after the cutoff. */
  function CountFrom(s: seq<int>, cutoff: int, i: nat): nat
    requires i <= |s|
    decreases |s| - i
  {
    if i == |s| then 0 else (if s[i] < cutoff then 0 else 1) + CountFrom(s, cutoff, i + 1)
  }

  function Count(s: seq<int>, cutoff: int): nat { CountFrom(s, cutoff, 0) }

  /** All failures of a key since its last success or block, however old. */
  function Since(l: Limits, h: seq<Event>, key: string): seq<int>
  {
    if h == [] then []
    else
      var before, e := Since(l, h[..|h| - 1], key), h[|h| - 1];
      if e.key != key then before
      else if e.Success? || Count(before, e.at - l.window) + 1 >= l.maxFailures then []
      else before + [e.at]
  }

  /** A failure blocks when, with the recent ones before it, it reaches the maximum. */
  predicate Blocks(l: Limits, h: seq<Event>, key: string, now: int) {
    Count(Since(l, h, key), now - l.window) + 1 >= l.maxFailures
  }

  datatype Until = Free | Until(time: int)

  /** The end of the latest block of a key that no success has cleared. */
  function BlockedUntil(l: Limits, h: seq<Event>, key: string): Until
  {
    if h == [] then Free
    else
      var rest, e := h[..|h| - 1], h[|h| - 1];
      if e.key != key then BlockedUntil(l, rest, key)
      else if e.Success? then Free
      else if Blocks(l, rest, key, e.at) then Until(e.at + l.cooldown)
      else BlockedUntil(l, rest, key)
  }

  predicate Refuses(l: Limits, h: seq<Event>, key: string, now: int) {
    BlockedUntil(l, h, key).Until? && now < BlockedUntil(l, h, key).time
  }

  // ---------- the specification in other words ----------

  /** The positions of the times at or after the cutoff. */
  ghost function RecentFrom(s: seq<int>, cutoff: int, i: nat): set<nat> {
    set k: nat | i <= k < |s| && s[k] >= cutoff
  }

  lemma {:induction false} CountIsCardinality(s: seq<int>, cutoff: int, i: nat)
    requires i <= |s|
    ensures CountFrom(s, cutoff, i) == |RecentFrom(s, cutoff, i)|
    decreases |s| - i
  {
    if i < |s| {
      CountIsCardinality(s, cutoff, i + 1);
      var rest := RecentFrom(s, cutoff, i + 1);
      if s[i] >= cutoff {
        assert RecentFrom(s, cutoff, i) == rest + {i};
      } else {
        assert RecentFrom(s, cutoff, i) == rest;
      }
    }
  }

  /** The times of a key's failures from an event on. */
  function TimesFrom(h: seq<Event>, key: string, start: nat): seq<int>
    requires start <= |h|
    decreases |h|
  {
    if start == |h| then []
    else
      var before, e := TimesFrom(h[..|h| - 1], key, start), h[|h| - 1];
      if e.key == key && e.Failure? then before + [e.at] else before
  }

  /** Event i is a success of the key or a failure that blocks it. */
  ghost predicate IsReset(l: Limits, h: seq<Event>, key: string, i: nat)
    requires i < |h|
  {
    h[i].key == key && (h[i].Success? || Blocks(l, h[..i], key, h[i].at))
  }

  ghost predicate BlocksAt(l: Limits, h: seq<Event>, key: string, i: nat)
    requires i < |h|
  {
    h[i].key == key && h[i].Failure? && Blocks(l, h[..i], key, h[i].at)
  }

  /** What is a reset stays one when more happens. */
  lemma ResetsKept(l: Limits, h: seq<Event>, key: string, n: nat)
    requires n <= |h|
    ensures forall i: nat :: i < n ==> (IsReset(l, h[..n], key, i) <==> IsReset(l, h, key, i))
    ensures forall i: nat :: i < n ==> (BlocksAt(l, h[..n], key, i) <==> BlocksAt(l, h, key, i))
  {
    forall i: nat | i < n
      ensures IsReset(l, h[..n], key, i) <==> IsReset(l, h, key, i)
      ensures BlocksAt(l, h[..n], key, i) <==> BlocksAt(l, h, key, i)
    {
      assert h[..n][..i] == h[..i];
    }
  }

  /** The failures that count are those after the last success or block, all of them. */
  lemma {:induction false} SinceLastReset(l: Limits, h: seq<Event>, key: string) returns (start: nat)
    ensures start <= |h| && Since(l, h, key) == TimesFrom(h, key, start)
    ensures start > 0 ==> IsReset(l, h, key, start - 1)
    ensures forall i: nat :: start <= i < |h| ==> !IsReset(l, h, key, i)
  {
    if h == [] {
      start := 0;
    } else {
      var n := |h| - 1;
      start := SinceLastReset(l, h[..n], key);
      ResetsKept(l, h, key, n);
      if IsReset(l, h, key, n) { start := n + 1; }
    }
  }

  ghost predicate IsLastReset(l: Limits, h: seq<Event>, key: string, i: nat)
    requires i < |h|
  {
    forall j: nat :: i < j < |h| ==> !IsReset(l, h, key, j)
  }

  lemma LastResetKept(l: Limits, h: seq<Event>, key: string, n: nat)
    requires |h| == n + 1 && !IsReset(l, h, key, n)
    ensures forall i: nat :: i < n ==> (IsLastReset(l, h[..n], key, i) <==> IsLastReset(l, h, key, i))
  {
    hide IsReset;
    ResetsKept(l, h, key, n);
  }

  ghost predicate IsLatestBlock(l: Limits, h: seq<Event>, key: string, i: nat) {
    i < |h| && BlocksAt(l, h, key, i) && IsLastReset(l, h, key, i)
  }

  /** The latest block: the last failure that blocked, unless a success came after it. */
  lemma {:induction false} LatestBlock(l: Limits, h: seq<Event>, key: string)
    ensures BlockedUntil(l, h, key).Until? <==> exists i: nat :: IsLatestBlock(l, h, key, i)
    ensures forall i: nat :: IsLatestBlock(l, h, key, i) ==> BlockedUntil(l, h, key) == Until(h[i].at + l.cooldown)
  {
    if h != [] {
      var n := |h| - 1;
      LatestBlock(l, h[..n], key);
      ResetsKept(l, h, key, n);
      if IsReset(l, h, key, n) {
        assert forall i: nat :: i < n ==> !IsLastReset(l, h, key, i);
        assert IsLastReset(l, h, key, n) && (BlocksAt(l, h, key, n) ==> IsLatestBlock(l, h, key, n));
      } else {
        LastResetKept(l, h, key, n);
        assert !BlocksAt(l, h, key, n);
        assert forall i: nat :: IsLatestBlock(l, h[..n], key, i) <==> IsLatestBlock(l, h, key, i);
      }
    }
  }

  // ---------- the pruned record agrees with it ----------

  predicate Sorted(s: seq<int>) { forall i, j :: 0 <= i < j < |s| ==> s[i] <= s[j] }

  /** What a record holds of its failures is a suffix; what it lacks has left every later window. */
  predicate TimesAgree(s: seq<int>, failures: seq<int>, window: int, clock: int) {
    && |failures| <= |s| && failures == s[|s| - |failures|..]
    && (forall i :: 0 <= i < |s| - |failures| ==> s[i] < clock - window)
    && Sorted(s) && (forall i :: 0 <= i < |s| ==> s[i] <= clock)
  }

  /** A block that was cleared from the record has already ended. */
  predicate BlockAgrees(until: Until, blockedUntil: int, clock: int) {
    match until
    case Free => blockedUntil == 0
    case Until(u) => blockedUntil == u || (blockedUntil == 0 && u <= clock)
  }

  /** A record stands for the whole history of its key. */
  predicate Agrees(l: Limits, failures: seq<int>, blockedUntil: int, h: seq<Event>, key: string, clock: int) {
    TimesAgree(Since(l, h, key), failures, l.window, clock) && BlockAgrees(BlockedUntil(l, h, key), blockedUntil, clock)
  }

  /** The first index from i on whose time is not before the cutoff. */
  function KeepFrom(s: seq<int>, cutoff: int, i: nat): (k: nat)
    requires i <= |s|
    ensures i <= k <= |s| && (forall j :: i <= j < k ==> s[j] < cutoff) && (k < |s| ==> s[k] >= cutoff)
    decreases |s| - i
  {
    if i < |s| && s[i] < cutoff then KeepFrom(s, cutoff, i + 1) else i
  }

  function Pruned(s: seq<int>, cutoff: int): seq<int> { s[KeepFrom(s, cutoff, 0)..] }

  /** On sorted times dropping a prefix counts what a full scan counts. */
  lemma {:induction false} PruneCounts(s: seq<int>, cutoff: int, i: nat)
    requires Sorted(s) && i <= |s|
    ensures CountFrom(s, cutoff, i) == |s| - KeepFrom(s, cutoff, i)
    decreases |s| - i
  {
    if i < |s| {
      PruneCounts(s, cutoff, i + 1);
    }
  }

  /** The prefix a record has already lost lies before any later cutoff. */
  lemma {:induction false} PruneSuffix(s: seq<int>, d: nat, cutoff: int, i: nat)
    requires d <= |s| && i <= |s| && forall j :: 0 <= j < d ==> s[j] < cutoff
    ensures d <= i ==> KeepFrom(s[d..], cutoff, i - d) + d == KeepFrom(s, cutoff, i)
    ensures i < d ==> KeepFrom(s[d..], cutoff, 0) + d == KeepFrom(s, cutoff, i)
    decreases |s| - i
  {
    if i < |s| { PruneSuffix(s, d, cutoff, i + 1); }
  }

  lemma KeepFromRange(s: seq<int>, cutoff: int)
    ensures KeepFrom(s, cutoff, 0) <= |s| && forall j :: 0 <= j < KeepFrom(s, cutoff, 0) ==> s[j] < cutoff
  {
  }

  /** Pruning what a record holds drops the same times as pruning everything. */
  lemma DropTwice(s: seq<int>, d: nat, k: nat)
    requires d <= k <= |s|
    ensures s[d..][k - d..] == s[k..]
  {
  }

  lemma SuffixPruned(s: seq<int>, failures: seq<int>, window: int, clock: int, now: int)
    requires TimesAgree(s, failures, window, clock) && clock <= now
    ensures Pruned(failures, now - window) == Pruned(s, now - window)
  {
    hide KeepFrom, Sorted;
    var cutoff, d := now - window, |s| - |failures|;
    assert failures == s[d..] && forall j :: 0 <= j < d ==> s[j] < cutoff;
    hide TimesAgree;
    PruneSuffix(s, d, cutoff, 0);
    KeepFromRange(s, cutoff);
    KeepFromRange(s[d..], cutoff);
    DropTwice(s, d, KeepFrom(s, cutoff, 0));
  }

  /** The times that are left are as many as a full scan counts. */
  lemma PrunedCount(s: seq<int>, cutoff: int)
    requires Sorted(s)
    ensures |Pruned(s, cutoff)| == Count(s, cutoff)
  {
    hide KeepFrom, CountFrom, Sorted;
    KeepFromRange(s, cutoff);
    PruneCounts(s, cutoff, 0);
  }

  lemma PrunedAgrees(s: seq<int>, window: int, clock: int, now: int)
    requires Sorted(s) && clock <= now && forall i :: 0 <= i < |s| ==> s[i] <= clock
    ensures TimesAgree(s, Pruned(s, now - window), window, now)
  {
    hide KeepFrom, Sorted;
    KeepFromRange(s, now - window);
  }

  lemma TimesPruned(s: seq<int>, failures: seq<int>, window: int, clock: int, now: int)
    requires TimesAgree(s, failures, window, clock) && clock <= now
    ensures |Pruned(failures, now - window)| == Count(s, now - window)
    ensures TimesAgree(s, Pruned(failures, now - window), window, now)
  {
    hide Pruned, Count, Sorted;
    SuffixPruned(s, failures, window, clock, now);
    PrunedCount(s, now - window);
    PrunedAgrees(s, window, clock, now);
  }

  /** Pruning never changes an answer: the record, pruned again, counts exactly the failures of
      the whole history inside the window. */
  lemma PrunedRecordCounts(l: Limits, failures: seq<int>, blockedUntil: int, h: seq<Event>, key: string, clock: int,
                           now: int)
    requires Agrees(l, failures, blockedUntil, h, key, clock) && clock <= now
    ensures |Pruned(failures, now - l.window)| == Count(Since(l, h, key), now - l.window)
    ensures Agrees(l, Pruned(failures, now - l.window), blockedUntil, h, key, now)
  {
    hide Since, BlockedUntil, Count, TimesAgree;
    TimesPruned(Since(l, h, key), failures, l.window, clock, now);
  }

  lemma AgreesLater(l: Limits, failures: seq<int>, blockedUntil: int, h: seq<Event>, key: string, clock: int, now: int)
    requires Agrees(l, failures, blockedUntil, h, key, clock) && clock <= now
    ensures Agrees(l, failures, blockedUntil, h, key, now)
  {
  }

  lemma AgreesOtherKey(l: Limits, failures: seq<int>, blockedUntil: int, h: seq<Event>, key: string, clock: int,
                       e: Event)
    requires Agrees(l, failures, blockedUntil, h, key, clock) && e.key != key
    ensures Agrees(l, failures, blockedUntil, h + [e], key, clock)
  {
    assert (h + [e])[..|h|] == h;
  }

  lemma AgreesSuccess(l: Limits, h: seq<Event>, key: string, clock: int)
    ensures Agrees(l, [], 0, h + [Success(key)], key, clock)
  {
    assert (h + [Success(key)])[..|h|] == h;
  }

  /** A failure below the maximum is appended; one that reaches it starts a block. */
  lemma AgreesFailure(l: Limits, failures: seq<int>, blockedUntil: int, h: seq<Event>, key: string, now: int)
    requires Agrees(l, failures, blockedUntil, h, key, now)
    ensures var h' := h + [Failure(key, now)];
            if Blocks(l, h, key, now) then Agrees(l, [], now + l.cooldown, h', key, now)
            else Agrees(l, failures + [now], blockedUntil, h', key, now)
  {
    var h' := h + [Failure(key, now)];
    assert h'[..|h|] == h;
    hide Count;
    if !Blocks(l, h, key, now) {
      var s := Since(l, h, key);
      assert Since(l, h', key) == s + [now];
      assert (s + [now])[|s| - |failures|..] == failures + [now];
    }
  }

  // ---------- the limiter ----------

  class Record {
    var failures: seq<int>
    var blockedUntil: int  // 0 stands for the zero time

    constructor ()
      ensures failures == [] && blockedUntil == 0
    {
      failures := [];
      blockedUntil := 0;
    }
  }

  /** `pruneLoginFailures`. */
  method PruneLoginFailures(failures: seq<int>, cutoff: int) returns (kept: seq<int>)
    ensures kept == Pruned(failures, cutoff)
  {
    var keepFrom := 0;
    while keepFrom < |failures| && failures[keepFrom] < cutoff
      invariant 0 <= keepFrom <= |failures|
      invariant KeepFrom(failures, cutoff, keepFrom) == KeepFrom(failures, cutoff, 0)
    {
      keepFrom := keepFrom + 1;
    }
    kept := failures[keepFrom..];
  }

  /** `loginLimitKey`; letters outside ASCII keep their case here. */
  function Key(ip: string, username: string): string {
    TrimSpace(ip) + [0 as char] + ToLower(TrimSpace(username))
  }

  /** All records as values. */
  type Table = map<string, (seq<int>, int)>

  function Failures(t: Table, key: string): seq<int> { if key in t then t[key].0 else [] }
  function Blocked(t: Table, key: string): int { if key in t then t[key].1 else 0 }

  /** Every key's record, present or deleted, agrees with the whole history. */
  ghost predicate AllAgree(l: Limits, t: Table, h: seq<Event>, clock: int) {
    forall k: string {:trigger Failures(t, k)} {:trigger Blocked(t, k)} ::
        Agrees(l, Failures(t, k), Blocked(t, k), h, k, clock)
  }

  /** `allow` on values. */
  function Allowed(l: Limits, t: Table, key: string, now: int): Table {
    var kept := Pruned(Failures(t, key), now - l.window);
    if key !in t || now < t[key].1 then t
    else if kept == [] then t - {key}
    else t[key := (kept, 0)]
  }

  /** `registerFailure` on values. */
  function Failed(l: Limits, t: Table, key: string, now: int): Table {
    var kept := Pruned(Failures(t, key), now - l.window) + [now];
    t[key := if |kept| >= l.maxFailures then ([], now + l.cooldown) else (kept, Blocked(t, key))]
  }

  /** The record alone tells whether the history refuses. */
  lemma RefusesByRecord(l: Limits, failures: seq<int>, blockedUntil: int, h: seq<Event>, key: string, clock: int,
                        now: int)
    requires Agrees(l, failures, blockedUntil, h, key, clock) && 0 <= clock <= now
    ensures Refuses(l, h, key, now) <==> now < blockedUntil
    ensures Refuses(l, h, key, now) ==> BlockedUntil(l, h, key).time == blockedUntil
  {
    hide Since, BlockedUntil, TimesAgree;
  }

  lemma ClearedAgrees(l: Limits, failures: seq<int>, blockedUntil: int, h: seq<Event>, key: string, now: int)
    requires Agrees(l, failures, blockedUntil, h, key, now) && blockedUntil <= now
    ensures Agrees(l, failures, 0, h, key, now)
  {
    hide Since, BlockedUntil, TimesAgree;
  }

  lemma AllowedAgrees(l: Limits, t: Table, h: seq<Event>, clock: int, key: string, now: int)
    requires AllAgree(l, t, h, clock) && 0 <= clock <= now
    ensures AllAgree(l, Allowed(l, t, key, now), h, now)
    ensures Refuses(l, h, key, now) <==> key in t && now < t[key].1
    ensures Refuses(l, h, key, now) ==> BlockedUntil(l, h, key).time == t[key].1
  {
    hide Agrees, Pruned, Refuses, BlockedUntil;
    var t' := Allowed(l, t, key, now);
    RefusesByRecord(l, Failures(t, key), Blocked(t, key), h, key, clock, now);
    forall k: string ensures Agrees(l, Failures(t', k), Blocked(t', k), h, k, now) {
      AgreesLater(l, Failures(t, k), Blocked(t, k), h, k, clock, now);
      if k == key && key in t && t[key].1 <= now {
        PrunedRecordCounts(l, Failures(t, key), Blocked(t, key), h, key, clock, now);
        ClearedAgrees(l, Pruned(Failures(t, key), now - l.window), t[key].1, h, key, now);
      }
    }
  }

  lemma FailedAgrees(l: Limits, t: Table, h: seq<Event>, clock: int, key: string, now: int)
    requires AllAgree(l, t, h, clock) && 0 <= clock <= now
    ensures AllAgree(l, Failed(l, t, key, now), h + [Failure(key, now)], now)
    ensures Blocks(l, h, key, now) <==> |Pruned(Failures(t, key), now - l.window)| + 1 >= l.maxFailures
  {
    hide Since, BlockedUntil, Pruned, Count;
    var t', h' := Failed(l, t, key, now), h + [Failure(key, now)];
    PrunedRecordCounts(l, Failures(t, key), Blocked(t, key), h, key, clock, now);
    AgreesFailure(l, Pruned(Failures(t, key), now - l.window), Blocked(t, key), h, key, now);
    forall k: string ensures Agrees(l, Failures(t', k), Blocked(t', k), h', k, now) {
      if k != key {
        AgreesLater(l, Failures(t, k), Blocked(t, k), h, k, clock, now);
        AgreesOtherKey(l, Failures(t, k), Blocked(t, k), h, k, now, Failure(key, now));
      }
    }
  }

  lemma SucceededAgrees(l: Limits, t: Table, h: seq<Event>, clock: int, key: string)
    requires AllAgree(l, t, h, clock)
    ensures AllAgree(l, t - {key}, h + [Success(key)], clock)
  {
    hide Since, BlockedUntil;
    var t', h' := t - {key}, h + [Success(key)];
    AgreesSuccess(l, h, key, clock);
    forall k: string ensures Agrees(l, Failures(t', k), Blocked(t', k), h', k, clock) {
      if k != key { AgreesOtherKey(l, Failures(t, k), Blocked(t, k), h, k, clock, Success(key)); }
    }
  }

  lemma FailedByStoring(l: Limits, t: Table, key: string, now: int, kept: seq<int>)
    requires kept == Pruned(Failures(t, key), now - l.window) + [now]
    ensures var t1 := t[key := (Failures(t, key), Blocked(t, key))];
            var r := if |kept| >= l.maxFailures then ([], now + l.cooldown) else (kept, Blocked(t, key));
            Failed(l, t, key, now) == t1[key := r]
  {
  }

  lemma KeyParts(ip: string, username: string)
    requires Lacks(ip, 0 as char)
    ensures Key(ip, username) == TrimSpace(ip) + [0 as char] + ToLower(TrimSpace(username))
    ensures Lacks(TrimSpace(ip), 0 as char)
  {
    TrimKeepsLacks(ip, 0 as char);
  }

  /** Two logins share a record exactly if address and user name agree, blanks around them and the
      letter case of the name aside. */
  lemma KeysAgreeExactly(ip: string, username: string, otherIp: string, otherName: string)
    requires Lacks(ip, 0 as char) && Lacks(otherIp, 0 as char)
    ensures Key(ip, username) == Key(otherIp, otherName)
            <==> TrimSpace(ip) == TrimSpace(otherIp) && ToLower(TrimSpace(username)) == ToLower(TrimSpace(otherName))
  {
    hide Key, TrimSpace, ToLower, Lacks;
    KeyParts(ip, username);
    KeyParts(otherIp, otherName);
    if Key(ip, username) == Key(otherIp, otherName) {
      SplitsOnce(TrimSpace(ip), TrimSpace(otherIp), ToLower(TrimSpace(username)), ToLower(TrimSpace(otherName)),
          0 as char);
    }
  }

  class Limiter {
    const limits: Limits
    var attempts: map<string, Record>
    ghost var history: seq<Event>
    ghost var clock: int

    /** The records as values. */
    ghost function Records(): Table
      reads `attempts, attempts.Values
    {
      map k | k in attempts :: (attempts[k].failures, attempts[k].blockedUntil)
    }

    ghost predicate Distinct()
      reads `attempts
    {
      forall j, k :: j in attempts && k in attempts && j != k ==> attempts[j] != attempts[k]
    }

    /** No two keys share a record, and all records agree with the whole history. */
    ghost predicate Valid()
      reads this, attempts.Values
    {
      && clock >= 0
      && Distinct()
      && AllAgree(limits, Records(), history, clock)
    }

    constructor (limits: Limits)
      ensures Valid() && this.limits == limits && history == [] && clock == 0
    {
      this.limits := limits;
      attempts := map[];
      history := [];
      clock := 0;
    }

    /** `allow`: refuses exactly until the latest block that no success has cleared ends. */
    method Allow(ip: string, username: string, now: int) returns (until: int, ok: bool)
      requires Valid() && clock <= now
      modifies this, attempts.Values
      ensures Valid() && history == old(history)
      ensures ok == !Refuses(limits, history, Key(ip, username), now)
      ensures until == if ok then 0 else BlockedUntil(limits, history, Key(ip, username)).time
    {
      hide Agrees, Refuses, BlockedUntil, AllAgree, Key;
      var key := Key(ip, username);
      ghost var t := Records();
      AllowedAgrees(limits, t, history, clock, key, now);
      if key !in attempts { return 0, true; }
      var record := attempts[key];
      if now < record.blockedUntil { return record.blockedUntil, false; }
      record.blockedUntil := 0;
      record.failures := PruneLoginFailures(record.failures, now - limits.window);
      if |record.failures| == 0 {
        attempts := attempts - {key};
      }
      clock := now;
      assert Records() == Allowed(limits, t, key, now);
      return 0, true;
    }

    /** Writing both fields of a record changes the table at its key only. */
    method Store(key: string, record: Record, failures: seq<int>, blockedUntil: int)
      requires Distinct() && key in attempts && attempts[key] == record
      modifies record
      ensures Records() == old(Records())[key := (failures, blockedUntil)]
      ensures record.blockedUntil == blockedUntil
    {
      record.failures := failures;
      record.blockedUntil := blockedUntil;
    }

    method FindOrCreate(key: string) returns (record: Record)
      requires Distinct()
      modifies `attempts
      ensures Distinct() && key in attempts && attempts[key] == record
      ensures attempts == old(attempts)[key := record] && (record in old(attempts.Values) || fresh(record))
      ensures record.failures == Failures(old(Records()), key) && record.blockedUntil == Blocked(old(Records()), key)
      ensures Records() == old(Records())[key := (record.failures, record.blockedUntil)]
    {
      if key in attempts {
        record := attempts[key];
      } else {
        record := new Record();
        attempts := attempts[key := record];
      }
    }

    /** The effect of `registerFailure` on the records. */
    method Fail(key: string, now: int) returns (until: int, blocked: bool)
      requires Distinct()
      modifies `attempts, attempts.Values
      ensures Distinct() && Records() == Failed(limits, old(Records()), key, now)
      ensures blocked == (|Pruned(Failures(old(Records()), key), now - limits.window)| + 1 >= limits.maxFailures)
      ensures until == if blocked then now + limits.cooldown else 0
      ensures fresh(attempts.Values - old(attempts.Values))
    {
      hide Failed, Pruned;
      ghost var t := Records();
      var record := FindOrCreate(key);
      var failures := PruneLoginFailures(record.failures, now - limits.window);
      failures := failures + [now];
      FailedByStoring(limits, t, key, now, failures);
      if |failures| >= limits.maxFailures {
        Store(key, record, [], now + limits.cooldown);
        until, blocked := record.blockedUntil, true;
      } else {
        Store(key, record, failures, record.blockedUntil);
        until, blocked := 0, false;
      }
    }

    /** `registerFailure`: blocks exactly when the failures of the whole history that lie in the
        window, this one included, reach the maximum. */
    method RegisterFailure(ip: string, username: string, now: int) returns (until: int, blocked: bool)
      requires Valid() && clock <= now
      modifies this, attempts.Values
      ensures Valid() && history == old(history) + [Failure(Key(ip, username), now)]
      ensures blocked == Blocks(limits, old(history), Key(ip, username), now)
      ensures until == if blocked then now + limits.cooldown else 0
    {
      hide Agrees, Blocks, AllAgree, Failed, Key;
      var key := Key(ip, username);
      FailedAgrees(limits, Records(), history, clock, key, now);
      until, blocked := Fail(key, now);
      history, clock := history + [Failure(key, now)], now;
    }

    /** `registerSuccess`. */
    method RegisterSuccess(ip: string, username: string)
      requires Valid()
      modifies this
      ensures Valid() && history == old(history) + [Success(Key(ip, username))]
    {
      hide Agrees, AllAgree, Key;
      var key := Key(ip, username);
      ghost var t := Records();
      SucceededAgrees(limits, t, history, clock, key);
      attempts := attempts - {key};
      history := history + [Success(key)];
      assert Records() == t - {key};
    }
  }
}
