/** `ensureUniqueProxyNames`: every proxy of a Clash profile gets a nonempty name of its own. */
module ProxyNames {
  import opened GoStrings

  /** A value of a proxy map, as far as names are concerned: strings, integers, and anything else
      by the text that %v prints for it. */
  datatype Value = Str(s: string) | Int(n: int) | Other(printed: string)

  class Proxy {
    var m: map<string, Value>

    constructor (m: map<string, Value>)
      ensures this.m == m
    {
      this.m := m;
    }
  }

  function Text(m: map<string, Value>, key: string): string {
    if key in m && m[key].Str? then m[key].s else ""
  }

  function Printed(m: map<string, Value>, key: string): string {
    if key !in m then "<nil>"
    else match m[key] case Str(s) => s case Int(n) => DecimalInt(n) case Other(p) => p
  }

  /** `fallbackProxyName`. */
  function Fallback(m: map<string, Value>, idx: nat): (s: string)
    ensures s != ""
  {
    var typ, server := Text(m, "type"), Text(m, "server");
    if typ != "" && server != "" then typ + "-" + server + "-" + Printed(m, "port") else "proxy-" + Decimal(idx + 1)
  }

  function Base(m: map<string, Value>, idx: nat): (s: string)
    ensures s != ""
  {
    if Text(m, "name") != "" then Text(m, "name") else Fallback(m, idx)
  }

  /** The names tried for a base: the base itself, then base-2, base-3, ... */
  function Candidate(base: string, n: nat): string {
    if n < 2 then base else base + "-" + Decimal(n)
  }

  lemma CandidatesDiffer(base: string, m: nat, n: nat)
    requires 1 <= m < n
    ensures Candidate(base, m) != Candidate(base, n)
  {
    var s, t := Candidate(base, m), Candidate(base, n);
    assert t == base + ("-" + Decimal(n));
    if m == 1 {
      assert |t| > |base|;
    } else if s == t {
      assert s == base + ("-" + Decimal(m));
      assert s[|base| + 1..] == Decimal(m) && t[|base| + 1..] == Decimal(n);
      DecimalInjective(m, n);
    }
  }

  /** The candidates before the n-th, as a set: as many as there are numbers, because no two of them
      agree. */
  ghost function Tried(base: string, n: nat): set<string> {
    if n <= 1 then {} else Tried(base, n - 1) + {Candidate(base, n - 1)}
  }

  lemma {:induction false} TriedMember(base: string, n: nat, s: string)
    requires s in Tried(base, n)
    ensures exists m :: 1 <= m < n && s == Candidate(base, m)
  {
    if s == Candidate(base, n - 1) { } else { TriedMember(base, n - 1, s); }
  }

  lemma {:induction false} TriedSize(base: string, n: nat)
    requires 1 <= n
    ensures |Tried(base, n)| == n - 1
  {
    if n > 1 {
      TriedSize(base, n - 1);
      if Candidate(base, n - 1) in Tried(base, n - 1) {
        TriedMember(base, n - 1, Candidate(base, n - 1));
        var m :| 1 <= m < n - 1 && Candidate(base, n - 1) == Candidate(base, m);
        CandidatesDiffer(base, m, n - 1);
      }
    }
  }

  lemma SubsetSize<T>(a: set<T>, b: set<T>)
    requires a <= b
    ensures |a| <= |b|
  {
    assert b == a + (b - a);
  }

  /** n is the first number whose candidate is free: 1 for the base itself. */
  ghost predicate IsFirstFree(seen: set<string>, base: string, n: nat) {
    1 <= n && Candidate(base, n) !in seen && forall m :: 1 <= m < n ==> Candidate(base, m) in seen
  }

  /** The inner loop. It ends because the seen names are finite and the candidates all differ. */
  method FreeName(seen: set<string>, base: string) returns (name: string)
    ensures exists k :: IsFirstFree(seen, base, k) && name == Candidate(base, k)
  {
    name := base;
    ghost var k := 1;
    var n := 2;
    while name in seen
      invariant n == k + 1 && 1 <= k && name == Candidate(base, k)
      invariant forall m :: 1 <= m < k ==> Candidate(base, m) in seen
      invariant Tried(base, k) <= seen
      decreases |seen| + 1 - k
    {
      TriedSize(base, k + 1);
      SubsetSize(Tried(base, k + 1), seen);
      name := base + "-" + Decimal(n);
      k, n := n, n + 1;
    }
    assert IsFirstFree(seen, base, k);
  }

  /** What naming may do to one proxy map: set its name, nothing else. */
  ghost predicate Renamed(was: map<string, Value>, now: map<string, Value>) {
    "name" in now && now["name"].Str? && now == was["name" := now["name"]]
  }

  ghost function Names(ms: seq<map<string, Value>>, n: nat): set<string>
    requires n <= |ms|
  {
    set i | 0 <= i < n :: Text(ms[i], "name")
  }

  ghost predicate NamedAt(was: seq<map<string, Value>>, now: seq<map<string, Value>>, i: nat, k: nat)
    requires i < |was| == |now|
  {
    IsFirstFree(Names(now, i), Base(was[i], i), k) && Text(now[i], "name") == Candidate(Base(was[i], i), k)
  }

  ghost predicate GivenAt(was: seq<map<string, Value>>, now: seq<map<string, Value>>, i: nat)
    requires i < |was| == |now|
  {
    Renamed(was[i], now[i]) && exists k :: NamedAt(was, now, i, k)
  }

  /** The result: every proxy keeps its other keys, and its name is the first free candidate after
      the names given before it. */
  ghost predicate WellNamed(was: seq<map<string, Value>>, now: seq<map<string, Value>>, n: nat)
    requires n <= |was| == |now|
  {
    forall i :: 0 <= i < n ==> GivenAt(was, now, i)
  }

  ghost function Maps(proxies: seq<Proxy>): (ms: seq<map<string, Value>>)
    reads proxies
    ensures |ms| == |proxies| && forall i :: 0 <= i < |ms| ==> ms[i] == proxies[i].m
  {
    seq(|proxies|, i requires 0 <= i < |proxies| reads proxies => proxies[i].m)
  }

  lemma NamesFrame(s: seq<map<string, Value>>, t: seq<map<string, Value>>, n: nat)
    requires n <= |s| == |t| && forall i :: 0 <= i < n ==> s[i] == t[i]
    ensures Names(s, n) == Names(t, n)
  {
  }

  lemma OneMoreName(was: seq<map<string, Value>>, before: seq<map<string, Value>>, now: seq<map<string, Value>>,
                    i: nat, name: string, k: nat)
    requires i < |was| == |before| == |now| && WellNamed(was, before, i)
    requires now == before[i := was[i]["name" := Str(name)]]
    requires IsFirstFree(Names(before, i), Base(was[i], i), k) && name == Candidate(Base(was[i], i), k)
    ensures WellNamed(was, now, i + 1) && Names(now, i + 1) == Names(before, i) + {name}
  {
    hide Base, Candidate, IsFirstFree;
    assert now[i]["name"] == Str(name);
    NamesFrame(before, now, i);
    forall j | 0 <= j <= i ensures GivenAt(was, now, j) {
      if j < i {
        assert GivenAt(was, before, j);
        NamesFrame(before, now, j);
        var kk :| NamedAt(was, before, j, kk);
        assert NamedAt(was, now, j, kk);
      } else {
        assert NamedAt(was, now, i, k);
      }
    }
    assert Names(now, i + 1) == Names(now, i) + {Text(now[i], "name")};
  }

  /** `ensureUniqueProxyNames`, on proxies that are different maps. */
  method EnsureUniqueProxyNames(proxies: seq<Proxy>)
    requires forall i, j :: 0 <= i < j < |proxies| ==> proxies[i] != proxies[j]
    modifies proxies
    ensures WellNamed(old(Maps(proxies)), Maps(proxies), |proxies|)
  {
    var seen: set<string> := {};
    ghost var was := Maps(proxies);
    for i := 0 to |proxies|
      invariant forall j :: i <= j < |proxies| ==> proxies[j].m == was[j]
      invariant seen == Names(Maps(proxies), i)
      invariant WellNamed(was, Maps(proxies), i)
    {
      ghost var before := Maps(proxies);
      var proxy := proxies[i];
      var base := Text(proxy.m, "name");
      if base == "" { base := Fallback(proxy.m, i); }
      var name := FreeName(seen, base);
      ghost var k :| IsFirstFree(seen, base, k) && name == Candidate(base, k);
      seen := seen + {name};
      proxy.m := proxy.m["name" := Str(name)];
      OneMoreName(was, before, Maps(proxies), i, name, k);
    }
  }

  // ---------- what that means ----------

  lemma NameNotEmpty(was: seq<map<string, Value>>, now: seq<map<string, Value>>, i: nat)
    requires |was| == |now| && WellNamed(was, now, |was|) && i < |was|
    ensures Text(now[i], "name") != ""
  {
    assert GivenAt(was, now, i);
    var k :| NamedAt(was, now, i, k);
  }

  /** All names are different. */
  lemma NamesDiffer(was: seq<map<string, Value>>, now: seq<map<string, Value>>, i: nat, j: nat)
    requires |was| == |now| && WellNamed(was, now, |was|) && i < j < |was|
    ensures Text(now[i], "name") != Text(now[j], "name")
  {
    assert GivenAt(was, now, j);
    var k :| NamedAt(was, now, j, k);
    assert Text(now[i], "name") in Names(now, j);
  }

  /** A name is kept exactly when it is not empty and no earlier proxy took it. */
  lemma NameKept(was: seq<map<string, Value>>, now: seq<map<string, Value>>, i: nat)
    requires |was| == |now| && WellNamed(was, now, |was|) && i < |was|
    ensures var name := Text(was[i], "name");
            Text(now[i], "name") == name <==> name != "" && name !in Names(now, i)
  {
    NameNotEmpty(was, now, i);
    var base := Base(was[i], i);
    assert GivenAt(was, now, i);
    var k :| NamedAt(was, now, i, k);
    if k >= 2 {
      assert Candidate(base, 1) in Names(now, i);
      CandidatesDiffer(base, 1, k);
    }
  }

  /** No other key changes. */
  lemma OtherKeysKept(was: seq<map<string, Value>>, now: seq<map<string, Value>>, i: nat, key: string)
    requires |was| == |now| && WellNamed(was, now, |was|) && i < |was| && key != "name"
    ensures (key in now[i] <==> key in was[i]) && (key in was[i] ==> now[i][key] == was[i][key])
  {
    assert GivenAt(was, now, i);
  }

  /** Running the pass again changes nothing: unique names are a fixed point. */
  lemma {:induction false} StableUnderRepetition(was: seq<map<string, Value>>, now: seq<map<string, Value>>,
                                                 again: seq<map<string, Value>>, i: nat)
    requires |was| == |now| == |again| && WellNamed(was, now, |was|) && WellNamed(now, again, |was|) && i <= |was|
    ensures forall j :: 0 <= j < i ==> again[j] == now[j]
  {
    if i > 0 {
      StableUnderRepetition(was, now, again, i - 1);
      assert Names(again, i - 1) == Names(now, i - 1);
      NameNotEmpty(was, now, i - 1);
      forall j | 0 <= j < i - 1 ensures Text(now[j], "name") != Text(now[i - 1], "name") {
        NamesDiffer(was, now, j, i - 1);
      }
      NameKept(now, again, i - 1);
      assert GivenAt(was, now, i - 1) && GivenAt(now, again, i - 1);
      assert again[i - 1]["name"] == now[i - 1]["name"];
    }
  }

  /** The name without a clash: the proxy's own, else one made of type, server and port, else one made
      of its position counted from one. */
  ghost predicate IsBaseName(m: map<string, Value>, i: nat, base: string) {
    if "name" in m && m["name"].Str? && m["name"].s != "" then base == m["name"].s
    else if "type" in m && m["type"].Str? && m["type"].s != "" && "server" in m && m["server"].Str?
        && m["server"].s != "" then
      && ("port" in m && m["port"].Int? ==> base == m["type"].s + "-" + m["server"].s + "-" + DecimalInt(m["port"].n))
      && ("port" in m && m["port"].Str? ==> base == m["type"].s + "-" + m["server"].s + "-" + m["port"].s)
      && ("port" in m && m["port"].Other? ==> base == m["type"].s + "-" + m["server"].s + "-" + m["port"].printed)
      && ("port" !in m ==> base == m["type"].s + "-" + m["server"].s + "-<nil>")
    else base == "proxy-" + Decimal(i + 1)
  }

  ghost predicate IsNumber(base: string, taken: set<string>, name: string, k: nat) {
    k >= 2 && name == base + "-" + Decimal(k) && name !in taken
    && forall n: nat :: 2 <= n < k ==> base + "-" + Decimal(n) in taken
  }

  ghost predicate IsNumbered(base: string, taken: set<string>, name: string) {
    if base !in taken then name == base else exists k: nat :: IsNumber(base, taken, name, k)
  }

  /** Every name is its base name if that is free, and otherwise the base name, a hyphen and the
      smallest number from two on that makes it free. */
  lemma NameShape(was: seq<map<string, Value>>, now: seq<map<string, Value>>, i: nat)
    requires |was| == |now| && WellNamed(was, now, |was|) && i < |was|
    ensures exists base :: IsBaseName(was[i], i, base) && IsNumbered(base, Names(now, i), Text(now[i], "name"))
  {
    var base := Base(was[i], i);
    assert GivenAt(was, now, i);
    var k: nat :| NamedAt(was, now, i, k);
    assert IsBaseName(was[i], i, base);
    forall n: nat | 2 <= n < k ensures base + "-" + Decimal(n) in Names(now, i) {
      assert Candidate(base, n) in Names(now, i);
    }
    if k >= 2 {
      assert Candidate(base, 1) in Names(now, i);
      assert IsNumber(base, Names(now, i), Text(now[i], "name"), k);
    }
    assert IsNumbered(base, Names(now, i), Text(now[i], "name"));
  }
}
