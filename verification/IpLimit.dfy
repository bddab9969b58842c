/** The per-client IP limit scan: `mergeClientIps`, `partitionLiveIps` and the decision in
    `updateInboundClientIps`. */
module IpLimit {
  import opened Sequences

  const STALE_AFTER := 1800

  datatype IpTime = IpTime(ip: string, time: int)

  ghost predicate Ascending(s: seq<IpTime>) { forall i, j :: 0 <= i < j < |s| ==> s[i].time <= s[j].time }

  ghost predicate UniqueIps(s: seq<IpTime>) { forall i, j :: 0 <= i < j < |s| ==> s[i].ip != s[j].ip }

  ghost function Entries(m: map<string, int>): set<IpTime> { set ip | ip in m :: IpTime(ip, m[ip]) }

  ghost function Ips(s: seq<IpTime>): set<string> { set i | 0 <= i < |s| :: s[i].ip }

  // ---------- merging ----------

  /** The first loop: later entries replace earlier ones. */
  function Loaded(old_: seq<IpTime>, cutoff: int, n: nat): map<string, int>
    requires n <= |old_|
  {
    if n == 0 then map[]
    else
      var m, e := Loaded(old_, cutoff, n - 1), old_[n - 1];
      if e.time < cutoff then m else m[e.ip := e.time]
  }

  /** The second loop: only a newer time replaces. */
  function Raised(m: map<string, int>, new_: seq<IpTime>, cutoff: int, n: nat): map<string, int>
    requires n <= |new_|
  {
    if n == 0 then m
    else
      var r, e := Raised(m, new_, cutoff, n - 1), new_[n - 1];
      if e.time < cutoff || (e.ip in r && e.time <= r[e.ip]) then r else r[e.ip := e.time]
  }

  function Merged(old_: seq<IpTime>, new_: seq<IpTime>, cutoff: int): map<string, int> {
    Raised(Loaded(old_, cutoff, |old_|), new_, cutoff, |new_|)
  }

  /** `mergeClientIps`. */
  method MergeClientIps(old_: seq<IpTime>, new_: seq<IpTime>, staleCutoff: int) returns (ipMap: map<string, int>)
    ensures ipMap == Merged(old_, new_, staleCutoff)
  {
    ipMap := map[];
    for i := 0 to |old_|
      invariant ipMap == Loaded(old_, staleCutoff, i)
    {
      if old_[i].time >= staleCutoff { ipMap := ipMap[old_[i].ip := old_[i].time]; }
    }
    for i := 0 to |new_|
      invariant ipMap == Raised(Loaded(old_, staleCutoff, |old_|), new_, staleCutoff, i)
    {
      var e := new_[i];
      if e.time >= staleCutoff {
        if e.ip !in ipMap || e.time > ipMap[e.ip] { ipMap := ipMap[e.ip := e.time]; }
      }
    }
  }

  /** t is the newest time at which ip appears, among the entries that are not stale. */
  ghost predicate IsNewest(s: seq<IpTime>, cutoff: int, ip: string, t: int) {
    IpTime(ip, t) in s && t >= cutoff && forall i :: 0 <= i < |s| && s[i].ip == ip ==> s[i].time <= t
  }

  ghost predicate Appears(s: seq<IpTime>, cutoff: int, ip: string) {
    exists i :: 0 <= i < |s| && s[i].ip == ip && s[i].time >= cutoff
  }

  /** What one more entry changes. */
  lemma OneMore(s: seq<IpTime>, e: IpTime, cutoff: int, ip: string)
    ensures Appears(s + [e], cutoff, ip) <==> Appears(s, cutoff, ip) || (e.ip == ip && e.time >= cutoff)
    ensures forall t :: IsNewest(s, cutoff, ip, t) && (e.ip != ip || e.time <= t) ==> IsNewest(s + [e], cutoff, ip, t)
    ensures e.ip == ip && e.time >= cutoff && (forall i :: 0 <= i < |s| && s[i].ip == ip ==> s[i].time <= e.time) ==>
              IsNewest(s + [e], cutoff, ip, e.time)
  {
    var r := s + [e];
    assert r[|s|] == e && forall i :: 0 <= i < |s| ==> r[i] == s[i];
    forall t | IsNewest(s, cutoff, ip, t) && (e.ip != ip || e.time <= t) ensures IsNewest(r, cutoff, ip, t) {
      var i :| 0 <= i < |s| && s[i] == IpTime(ip, t);
      assert r[i] == IpTime(ip, t);
    }
  }

  ghost predicate IsLastOf(s: seq<IpTime>, i: nat)
    requires i < |s|
  {
    forall j :: i < j < |s| ==> s[j].ip != s[i].ip
  }

  /** An IP's last entry in the list is its newest. */
  ghost predicate LastIsNewest(s: seq<IpTime>) {
    forall i, k :: 0 <= i < |s| && 0 <= k < |s| && IsLastOf(s, i) && s[k].ip == s[i].ip ==> s[k].time <= s[i].time
  }

  lemma UniqueIsLastNewest(s: seq<IpTime>)
    requires UniqueIps(s)
    ensures LastIsNewest(s)
  {
  }

  lemma {:induction false} LastEntry(s: seq<IpTime>, i: nat, n: nat) returns (j: nat)
    requires i < n <= |s| && forall k :: n <= k < |s| ==> s[k].ip != s[i].ip
    ensures i <= j < n && s[j].ip == s[i].ip && IsLastOf(s, j)
  {
    if s[n - 1].ip == s[i].ip {
      j := n - 1;
    } else {
      j := LastEntry(s, i, n - 1);
    }
  }

  /** The map holds of each IP its last entry that is not stale. */
  lemma {:induction false} LoadedIsLast(old_: seq<IpTime>, cutoff: int, n: nat, ip: string) returns (j: nat)
    requires n <= |old_|
    ensures ip in Loaded(old_, cutoff, n) <==> Appears(old_[..n], cutoff, ip)
    ensures ip in Loaded(old_, cutoff, n) ==>
              && j < n && old_[j] == IpTime(ip, Loaded(old_, cutoff, n)[ip]) && old_[j].time >= cutoff
              && forall k :: j < k < n && old_[k].ip == ip ==> old_[k].time < cutoff
  {
    j := 0;
    if n > 0 {
      j := LoadedIsLast(old_, cutoff, n - 1, ip);
      OneMore(old_[..n - 1], old_[n - 1], cutoff, ip);
      assert old_[..n] == old_[..n - 1] + [old_[n - 1]];
      if old_[n - 1].ip == ip && old_[n - 1].time >= cutoff { j := n - 1; }
    }
  }

  lemma LoadedNewest(old_: seq<IpTime>, cutoff: int, ip: string)
    requires LastIsNewest(old_)
    ensures ip in Loaded(old_, cutoff, |old_|) <==> Appears(old_, cutoff, ip)
    ensures ip in Loaded(old_, cutoff, |old_|) ==> IsNewest(old_, cutoff, ip, Loaded(old_, cutoff, |old_|)[ip])
  {
    var j := LoadedIsLast(old_, cutoff, |old_|, ip);
    assert old_[..|old_|] == old_;
    if ip in Loaded(old_, cutoff, |old_|) {
      var l := LastEntry(old_, j, |old_|);
      assert old_[j].time <= old_[l].time;
    }
  }

  lemma {:induction false} RaisedNewest(old_: seq<IpTime>, new_: seq<IpTime>, cutoff: int, n: nat, ip: string)
    requires n <= |new_| && LastIsNewest(old_)
    ensures var m := Raised(Loaded(old_, cutoff, |old_|), new_, cutoff, n);
            && (ip in m <==> Appears(old_ + new_[..n], cutoff, ip))
            && (ip in m ==> IsNewest(old_ + new_[..n], cutoff, ip, m[ip]))
  {
    hide LastIsNewest;
    if n == 0 {
      LoadedNewest(old_, cutoff, ip);
      assert old_ == old_ + new_[..0];
    } else {
      RaisedNewest(old_, new_, cutoff, n - 1, ip);
      var s, e := old_ + new_[..n - 1], new_[n - 1];
      assert old_ + new_[..n] == s + [e];
      OneMore(s, e, cutoff, ip);
      var m := Raised(Loaded(old_, cutoff, |old_|), new_, cutoff, n - 1);
      if e.ip == ip && e.time >= cutoff && (ip !in m || m[ip] < e.time) {
        forall i | 0 <= i < |s| && s[i].ip == ip ensures s[i].time <= e.time {
          if s[i].time >= cutoff { assert Appears(s, cutoff, ip); }
        }
      }
    }
  }

  /** The merge holds exactly the IPs that appear and are not stale, each with its newest time. */
  ghost predicate IsExactMerge(old_: seq<IpTime>, new_: seq<IpTime>, cutoff: int, ip: string) {
    var m := Merged(old_, new_, cutoff);
    (ip in m <==> Appears(old_ + new_, cutoff, ip)) && (ip in m ==> IsNewest(old_ + new_, cutoff, ip, m[ip]))
  }

  lemma MergeIsNewest(old_: seq<IpTime>, new_: seq<IpTime>, cutoff: int, ip: string)
    requires LastIsNewest(old_)
    ensures IsExactMerge(old_, new_, cutoff, ip)
  {
    RaisedNewest(old_, new_, cutoff, |new_|, ip);
    assert new_[..|new_|] == new_;
  }

  /** An older last entry does win once the newer one is not stale either. */
  lemma OlderLastWins(old_: seq<IpTime>, i: nat, k: nat)
    requires i < |old_| && k < |old_| && IsLastOf(old_, i) && old_[k].ip == old_[i].ip && old_[k].time > old_[i].time
    ensures !IsExactMerge(old_, [], old_[i].time, old_[i].ip)
  {
    var j := LoadedIsLast(old_, old_[i].time, |old_|, old_[i].ip);
    assert old_[..|old_|] == old_ == old_ + [];
    assert Appears(old_, old_[i].time, old_[i].ip);
    assert j == i && Merged(old_, [], old_[i].time)[old_[i].ip] == old_[i].time;
  }

  /** So a stored list merges right with every observation exactly if the last entry of each of its
      IPs is the newest one. */
  lemma MergeIsNewestExactly(old_: seq<IpTime>)
    ensures (forall new_, cutoff, ip :: IsExactMerge(old_, new_, cutoff, ip)) <==> LastIsNewest(old_)
  {
    if LastIsNewest(old_) {
      forall new_, cutoff, ip ensures IsExactMerge(old_, new_, cutoff, ip) { MergeIsNewest(old_, new_, cutoff, ip); }
    } else {
      var i, k :| 0 <= i < |old_| && 0 <= k < |old_| && IsLastOf(old_, i)
                  && old_[k].ip == old_[i].ip && old_[k].time > old_[i].time;
      OlderLastWins(old_, i, k);
    }
  }

  /** It does happen with an IP stored twice. */
  lemma MergeOfDuplicates()
    ensures var old_ := [IpTime("a", 5), IpTime("a", 3)]; !IsExactMerge(old_, [], 3, "a")
  {
    OlderLastWins([IpTime("a", 5), IpTime("a", 3)], 1, 0);
  }

  lemma {:induction false} LoadedFresh(old_: seq<IpTime>, cutoff: int, n: nat)
    requires n <= |old_|
    ensures forall ip :: ip in Loaded(old_, cutoff, n) ==> Loaded(old_, cutoff, n)[ip] >= cutoff
  {
    if n > 0 { LoadedFresh(old_, cutoff, n - 1); }
  }

  lemma {:induction false} RaisedFresh(m: map<string, int>, new_: seq<IpTime>, cutoff: int, n: nat)
    requires n <= |new_| && forall ip :: ip in m ==> m[ip] >= cutoff
    ensures forall ip :: ip in Raised(m, new_, cutoff, n) ==> Raised(m, new_, cutoff, n)[ip] >= cutoff
  {
    if n > 0 { RaisedFresh(m, new_, cutoff, n - 1); }
  }

  /** Nothing in a merge is stale, whatever was stored. */
  lemma MergeIsFresh(old_: seq<IpTime>, new_: seq<IpTime>, cutoff: int)
    ensures forall ip :: ip in Merged(old_, new_, cutoff) ==> Merged(old_, new_, cutoff)[ip] >= cutoff
  {
    LoadedFresh(old_, cutoff, |old_|);
    RaisedFresh(Loaded(old_, cutoff, |old_|), new_, cutoff, |new_|);
  }

  // ---------- splitting ----------

  /** A sorted listing of part of a map. */
  ghost predicate Lists(s: seq<IpTime>, m: map<string, int>) {
    Ascending(s) && UniqueIps(s) && Elements(s) == Entries(m)
  }

  function Where(m: map<string, int>, ips: set<string>): map<string, int> { map ip | ip in m && ip in ips :: m[ip] }

  lemma EntryOf(m: map<string, int>, e: IpTime)
    ensures e in Entries(m) <==> e.ip in m && m[e.ip] == e.time
  {
  }

  lemma OneMoreEntry(m: map<string, int>, keys: set<string>, ip: string)
    requires ip in m
    ensures Entries(Where(m, keys + {ip})) == Entries(Where(m, keys)) + {IpTime(ip, m[ip])}
  {
    forall e ensures e in Entries(Where(m, keys + {ip})) <==> e in Entries(Where(m, keys)) + {IpTime(ip, m[ip])} {
      EntryOf(Where(m, keys + {ip}), e);
      EntryOf(Where(m, keys), e);
    }
  }

  lemma TwoParts(m: map<string, int>, keys: set<string>)
    ensures Entries(Where(m, keys)) + Entries(Where(m, m.Keys - keys)) == Entries(m)
    ensures Entries(Where(m, keys)) !! Entries(Where(m, m.Keys - keys))
  {
    forall e ensures e in Entries(m) <==> e in Entries(Where(m, keys)) + Entries(Where(m, m.Keys - keys)) {
      EntryOf(Where(m, keys), e);
      EntryOf(Where(m, m.Keys - keys), e);
      EntryOf(m, e);
    }
  }

  lemma ListOneMore(s: seq<IpTime>, m: map<string, int>, keys: set<string>, ip: string)
    requires Lists(s, Where(m, keys)) && ip in m && ip !in keys
    requires forall i :: 0 <= i < |s| ==> s[i].time <= m[ip]
    ensures Lists(s + [IpTime(ip, m[ip])], Where(m, keys + {ip}))
  {
    OneMoreEntry(m, keys, ip);
    ElementsOfAppend(s, IpTime(ip, m[ip]));
    forall i | 0 <= i < |s| ensures s[i].ip != ip {
      assert s[i] in Elements(s);
    }
  }

  method Earliest(m: map<string, int>, keys: set<string>) returns (first: string)
    requires keys != {} && keys <= m.Keys
    ensures first in keys && forall k :: k in keys ==> m[first] <= m[k]
  {
    first :| first in keys;
    var left := keys - {first};
    while left != {}
      invariant left <= keys && first in keys && first !in left
      invariant forall k :: k in keys && k !in left ==> m[first] <= m[k]
    {
      var k :| k in left;
      if m[k] < m[first] { first := k; }
      left := left - {k};
    }
  }

  /** The entries of a map in ascending order of time; equal times come in any order. */
  method SortedEntries(m: map<string, int>) returns (s: seq<IpTime>)
    ensures Lists(s, m) && |s| == |m|
  {
    s := [];
    var left := m.Keys;
    assert Where(m, {}) == map[];
    while left != {}
      invariant left <= m.Keys
      invariant Lists(s, Where(m, m.Keys - left)) && |s| + |left| == |m|
      invariant forall i, ip :: 0 <= i < |s| && ip in left ==> s[i].time <= m[ip]
    {
      var ip := Earliest(m, left);
      ListOneMore(s, m, m.Keys - left, ip);
      s := s + [IpTime(ip, m[ip])];
      assert m.Keys - (left - {ip}) == m.Keys - left + {ip};
      left := left - {ip};
    }
    assert Where(m, m.Keys - {}) == m;
  }

  /** `partitionLiveIps`. */
  method PartitionLiveIps(ipMap: map<string, int>, observed: set<string>)
    returns (live: seq<IpTime>, historical: seq<IpTime>)
    ensures Lists(live, Where(ipMap, observed)) && |live| == |Where(ipMap, observed)|
    ensures Lists(historical, Where(ipMap, ipMap.Keys - observed))
  {
    live := SortedEntries(map ip | ip in ipMap && ip in observed :: ipMap[ip]);
    historical := SortedEntries(map ip | ip in ipMap && ip !in observed :: ipMap[ip]);
    assert Where(ipMap, observed) == map ip | ip in ipMap && ip in observed :: ipMap[ip];
    assert Where(ipMap, ipMap.Keys - observed) == map ip | ip in ipMap && ip !in observed :: ipMap[ip];
  }

  /** What an enforced scan must decide: the live IPs are split by age, the historical ones are
      left alone, and nothing is lost or invented. */
  ghost predicate IsSplit(m: map<string, int>, observed: set<string>, limit: int, kept: seq<IpTime>,
                          banned: seq<IpTime>, historical: seq<IpTime>) {
    && Elements(kept) + Elements(banned) == Entries(Where(m, observed)) && UniqueIps(banned + kept)
    && Elements(historical) == Entries(Where(m, m.Keys - observed)) && UniqueIps(historical)
    && |banned| + |kept| == |Where(m, observed)|
    && |kept| == (if |Where(m, observed)| > limit then limit else |Where(m, observed)|)
    && forall i, j :: 0 <= i < |banned| && 0 <= j < |kept| ==> banned[i].time <= kept[j].time
  }

  /** The set of IPs of a scan. */
  method Seen(observed: seq<IpTime>) returns (ips: set<string>)
    ensures ips == Ips(observed)
  {
    ips := {};
    for i := 0 to |observed|
      invariant ips == set k | 0 <= k < i :: observed[k].ip
    {
      ips := ips + {observed[i].ip};
    }
  }

  lemma SplitAt(s: seq<IpTime>, k: nat)
    requires k <= |s|
    ensures Elements(s[k..]) + Elements(s[..k]) == Elements(s) && s[..k] + s[k..] == s
    ensures Ascending(s) ==> forall i, j :: 0 <= i < k && 0 <= j < |s| - k ==> s[..k][i].time <= s[k..][j].time
  {
    assert s == s[..k] + s[k..];
  }

  /** What one call of `updateInboundClientIps` depends on. */
  datatype Scan = Scan(observed: seq<IpTime>, limit: int, active: bool, logOpens: bool, now: int)

  ghost predicate Splits(stored: seq<IpTime>, scan: Scan, kept: seq<IpTime>, banned: seq<IpTime>,
                         historical: seq<IpTime>) {
    var m := Merged(stored, scan.observed, scan.now - STALE_AFTER);
    IsSplit(m, Ips(scan.observed), scan.limit, kept, banned, historical)
  }

  predicate Enforces(scan: Scan) { scan.active && scan.limit > 0 }

  /** An enforced scan that stores takes the list to the next one. */
  ghost predicate Stores(stored: seq<IpTime>, scan: Scan, next: seq<IpTime>) {
    Enforces(scan) && exists kept, banned, historical ::
      Splits(stored, scan, kept, banned, historical) && next == kept + historical && (banned == [] || scan.logOpens)
  }

  /** Somebody is to be banned, and the log of bans cannot be opened. */
  ghost predicate LogFails(stored: seq<IpTime>, scan: Scan) {
    !scan.logOpens && exists kept, banned, historical :: Splits(stored, scan, kept, banned, historical) && banned != []
  }

  /** Any scan: it records the observation, or splits and stores, or cannot open its log and leaves
      the list as it is. */
  ghost predicate Follows(stored: seq<IpTime>, scan: Scan, next: seq<IpTime>) {
    if Enforces(scan) then Stores(stored, scan, next) || (LogFails(stored, scan) && next == stored)
    else next == scan.observed
  }

  /** Cutting the sorted live IPs splits the merge. */
  lemma CutIsSplit(m: map<string, int>, seen: set<string>, limit: nat, live: seq<IpTime>, hist: seq<IpTime>,
                   cutoff: nat)
    requires Lists(live, Where(m, seen)) && |live| == |Where(m, seen)| && Lists(hist, Where(m, m.Keys - seen))
    requires cutoff == if |live| > limit then |live| - limit else 0
    ensures IsSplit(m, seen, limit, live[cutoff..], live[..cutoff], hist)
  {
    SplitAt(live, cutoff);
  }

  class Job {
    var disAllowedIps: seq<string>

    constructor ()
      ensures disAllowedIps == []
    {
      disAllowedIps := [];
    }

    /** The loop over the banned IPs. */
    method Ban(live: seq<IpTime>, cutoff: nat)
      requires cutoff <= |live| && disAllowedIps == []
      modifies this
      ensures |disAllowedIps| == cutoff && forall k :: 0 <= k < cutoff ==> disAllowedIps[k] == live[k].ip
    {
      for i := 0 to cutoff
        invariant |disAllowedIps| == i && forall k :: 0 <= k < i ==> disAllowedIps[k] == live[k].ip
      {
        disAllowedIps := disAllowedIps + [live[i].ip];
      }
    }

    /** `updateInboundClientIps`, from the stored and the observed list to the list to store;
        `active` stands for enforcement, a known client and an enabled inbound together. If the log
        of bans cannot be opened when it is needed, nothing is banned or stored. */
    method Update(stored: seq<IpTime>, observed: seq<IpTime>, limit: int, active: bool, logOpens: bool, now: int)
      returns (next: seq<IpTime>, clean: bool, ghost kept: seq<IpTime>, ghost banned: seq<IpTime>,
               ghost historical: seq<IpTime>)
      modifies this
      ensures !active || limit <= 0 ==> next == observed && !clean && disAllowedIps == old(disAllowedIps)
      ensures active && limit > 0 ==>
                && IsSplit(Merged(stored, observed, now - STALE_AFTER), Ips(observed), limit, kept, banned, historical)
                && (if banned == [] || logOpens then
                      && next == kept + historical
                      && |disAllowedIps| == |banned|
                      && (forall i :: 0 <= i < |banned| ==> disAllowedIps[i] == banned[i].ip)
                      && (clean <==> banned != [])
                    else next == stored && !clean && disAllowedIps == [])
      ensures Follows(stored, Scan(observed, limit, active, logOpens, now), next)
    {
      kept, banned, historical := [], [], [];
      if !active || limit <= 0 { return observed, false, [], [], []; }
      var ipMap := MergeClientIps(stored, observed, now - STALE_AFTER);
      var seen := Seen(observed);
      var live, hist := PartitionLiveIps(ipMap, seen);
      clean := |live| > limit;
      var cutoff := if clean then |live| - limit else 0;
      kept, banned, historical := live[cutoff..], live[..cutoff], hist;
      CutIsSplit(ipMap, seen, limit, live, hist, cutoff);
      hide IsSplit, Merged, Lists;
      disAllowedIps := [];
      ghost var scan := Scan(observed, limit, active, logOpens, now);
      assert Splits(stored, scan, kept, banned, historical);
      if clean && !logOpens { return stored, false, kept, banned, historical; }
      Ban(live, cutoff);
      next := live[cutoff..] + hist;
    }
  }

  /** Banned, kept and historical IPs are three different groups that together are the merge. */
  lemma SplitIsExact(m: map<string, int>, observed: set<string>, limit: int, kept: seq<IpTime>, banned: seq<IpTime>,
                     historical: seq<IpTime>)
    requires IsSplit(m, observed, limit, kept, banned, historical)
    ensures Elements(kept) + Elements(banned) + Elements(historical) == Entries(m)
    ensures Elements(kept) !! Elements(banned) && Elements(kept) !! Elements(historical)
    ensures Elements(banned) !! Elements(historical)
  {
    TwoParts(m, observed);
    forall i, j | 0 <= i < |kept| && 0 <= j < |banned| ensures kept[i] != banned[j] {
      assert (banned + kept)[j] == banned[j] && (banned + kept)[|banned| + i] == kept[i];
    }
  }

  /** The stored list: every IP once, nothing stale. */
  ghost predicate IsStored(s: seq<IpTime>, cutoff: int) {
    UniqueIps(s) && forall i :: 0 <= i < |s| ==> s[i].time >= cutoff
  }

  /** After one enforced scan the list is in that form whatever was stored before, so any sequence
      of enforced scans keeps it. */
  lemma ScanStores(stored: seq<IpTime>, observed: seq<IpTime>, limit: int, now: int, kept: seq<IpTime>,
                   banned: seq<IpTime>, historical: seq<IpTime>)
    requires IsSplit(Merged(stored, observed, now - STALE_AFTER), Ips(observed), limit, kept, banned, historical)
    ensures IsStored(kept + historical, now - STALE_AFTER)
  {
    var m, ips := Merged(stored, observed, now - STALE_AFTER), Ips(observed);
    MergeIsFresh(stored, observed, now - STALE_AFTER);
    var s := kept + historical;
    forall i | 0 <= i < |kept| ensures kept[i].ip in m && kept[i].ip in ips && kept[i].time == m[kept[i].ip] {
      assert kept[i] in Elements(kept) + Elements(banned);
    }
    forall i | 0 <= i < |historical|
      ensures historical[i].ip in m && historical[i].ip !in ips && historical[i].time == m[historical[i].ip]
    {
      assert historical[i] in Elements(historical);
    }
    forall i, j | 0 <= i < j < |s| ensures s[i].ip != s[j].ip {
      if j < |kept| {
        assert (banned + kept)[|banned| + i] == s[i] && (banned + kept)[|banned| + j] == s[j];
      }
    }
  }

  // ---------- any sequence of scans ----------

  ghost predicate IsRun(lists: seq<seq<IpTime>>, scans: seq<Scan>) {
    |lists| == |scans| + 1 && forall i :: 0 <= i < |scans| ==> Follows(lists[i], scans[i], lists[i + 1])
  }

  lemma StoresUnique(stored: seq<IpTime>, scan: Scan, next: seq<IpTime>)
    requires Stores(stored, scan, next)
    ensures IsStored(next, scan.now - STALE_AFTER)
  {
    hide IsSplit, Merged;
    var kept, banned, historical :| Splits(stored, scan, kept, banned, historical) && next == kept + historical;
    ScanStores(stored, scan.observed, scan.limit, scan.now, kept, banned, historical);
  }

  /** Every enforced scan that stores leaves each IP once and nothing stale, whatever was stored
      before, so a merge that follows is exact. */
  lemma RunStores(lists: seq<seq<IpTime>>, scans: seq<Scan>, i: nat, ip: string)
    requires IsRun(lists, scans) && i < |scans| && Stores(lists[i], scans[i], lists[i + 1])
    ensures IsStored(lists[i + 1], scans[i].now - STALE_AFTER)
    ensures i + 1 < |scans| ==> IsExactMerge(lists[i + 1], scans[i + 1].observed, scans[i + 1].now - STALE_AFTER, ip)
  {
    hide Stores, IsExactMerge;
    StoresUnique(lists[i], scans[i], lists[i + 1]);
    UniqueIsLastNewest(lists[i + 1]);
    if i + 1 < |scans| { MergeIsNewest(lists[i + 1], scans[i + 1].observed, scans[i + 1].now - STALE_AFTER, ip); }
  }

  /** Observations come from a map, so they have each IP once. */
  ghost predicate ObservesOnce(scans: seq<Scan>) { forall i :: 0 <= i < |scans| ==> UniqueIps(scans[i].observed) }

  /** From the first scan that writes anything on, a run that mixes enforced scans, plain recordings
      and failures to open the log has each IP once in every list, and every merge is exact. */
  lemma {:induction false} RunUnique(lists: seq<seq<IpTime>>, scans: seq<Scan>, first: nat, i: nat, ip: string)
    requires IsRun(lists, scans) && ObservesOnce(scans) && first < i < |lists|
    requires Enforces(scans[first]) ==> scans[first].logOpens
    ensures UniqueIps(lists[i])
    ensures i < |scans| ==> IsExactMerge(lists[i], scans[i].observed, scans[i].now - STALE_AFTER, ip)
  {
    hide Stores, IsExactMerge, Enforces;
    assert Follows(lists[i - 1], scans[i - 1], lists[i]);
    if Stores(lists[i - 1], scans[i - 1], lists[i]) {
      StoresUnique(lists[i - 1], scans[i - 1], lists[i]);
    } else if first < i - 1 {
      RunUnique(lists, scans, first, i - 1, ip);
    }
    UniqueIsLastNewest(lists[i]);
    if i < |scans| { MergeIsNewest(lists[i], scans[i].observed, scans[i].now - STALE_AFTER, ip); }
  }

  ghost predicate WasSeen(lists: seq<seq<IpTime>>, scans: seq<Scan>, i: nat, e: IpTime)
    requires IsRun(lists, scans) && i < |lists|
  {
    e in lists[0] || exists j :: 0 <= j < i && e in scans[j].observed
  }

  lemma StoredIsMerged(m: map<string, int>, observed: set<string>, limit: int, kept: seq<IpTime>,
                       banned: seq<IpTime>, historical: seq<IpTime>, e: IpTime)
    requires IsSplit(m, observed, limit, kept, banned, historical) && e in kept + historical
    ensures e.ip in m && m[e.ip] == e.time
  {
    SplitIsExact(m, observed, limit, kept, banned, historical);
    assert e in Elements(kept) + Elements(banned) + Elements(historical);
    EntryOf(m, e);
  }

  lemma {:induction false} LoadedIsSeen(old_: seq<IpTime>, cutoff: int, n: nat, e: IpTime)
    requires n <= |old_| && e.ip in Loaded(old_, cutoff, n) && Loaded(old_, cutoff, n)[e.ip] == e.time
    ensures e in old_
  {
    if n > 0 && old_[n - 1] != e { LoadedIsSeen(old_, cutoff, n - 1, e); }
  }

  lemma {:induction false} RaisedIsSeen(old_: seq<IpTime>, new_: seq<IpTime>, cutoff: int, n: nat, e: IpTime)
    requires n <= |new_|
    requires var m := Raised(Loaded(old_, cutoff, |old_|), new_, cutoff, n); e.ip in m && m[e.ip] == e.time
    ensures e in old_ || e in new_
  {
    if n > 0 {
      if new_[n - 1] != e { RaisedIsSeen(old_, new_, cutoff, n - 1, e); }
    } else {
      LoadedIsSeen(old_, cutoff, |old_|, e);
    }
  }

  lemma MergedIsSeen(old_: seq<IpTime>, new_: seq<IpTime>, cutoff: int, e: IpTime)
    requires e.ip in Merged(old_, new_, cutoff) && Merged(old_, new_, cutoff)[e.ip] == e.time
    ensures e in old_ || e in new_
  {
    RaisedIsSeen(old_, new_, cutoff, |new_|, e);
  }

  lemma StoredIsSeen(stored: seq<IpTime>, scan: Scan, next: seq<IpTime>, e: IpTime)
    requires Stores(stored, scan, next) && e in next
    ensures e in stored || e in scan.observed
  {
    hide Merged, IsSplit;
    var kept, banned, historical :| Splits(stored, scan, kept, banned, historical) && next == kept + historical;
    var m := Merged(stored, scan.observed, scan.now - STALE_AFTER);
    StoredIsMerged(m, Ips(scan.observed), scan.limit, kept, banned, historical, e);
    MergedIsSeen(stored, scan.observed, scan.now - STALE_AFTER, e);
  }

  /** No scan invents an entry: each was stored at the start or observed, with that very time. */
  lemma {:induction false} NothingInvented(lists: seq<seq<IpTime>>, scans: seq<Scan>, i: nat, e: IpTime)
    requires IsRun(lists, scans) && i < |lists| && e in lists[i]
    ensures WasSeen(lists, scans, i, e)
  {
    hide Stores, Enforces;
    if i > 0 {
      assert Follows(lists[i - 1], scans[i - 1], lists[i]);
      if Stores(lists[i - 1], scans[i - 1], lists[i]) { StoredIsSeen(lists[i - 1], scans[i - 1], lists[i], e); }
      if e in lists[i - 1] { NothingInvented(lists, scans, i - 1, e); }
    }
  }

  /** In numbers: an entry up to 1800 seconds old survives an enforced scan's merge, an older one does
      not, for a stored IP that is not observed and any duplicate-free list. */
  lemma StaleInNumbers(stored: seq<IpTime>, i: nat, observed: seq<IpTime>, now: int)
    requires UniqueIps(stored) && i < |stored| && forall k :: 0 <= k < |observed| ==> observed[k].ip != stored[i].ip
    ensures var m := Merged(stored, observed, now - STALE_AFTER);
            if now - stored[i].time <= 1800 then stored[i].ip in m && m[stored[i].ip] == stored[i].time
            else stored[i].ip !in m
  {
    hide Merged;
    var ip, all, cutoff := stored[i].ip, stored + observed, now - STALE_AFTER;
    UniqueIsLastNewest(stored);
    MergeIsNewest(stored, observed, cutoff, ip);
    assert all[i] == stored[i] && forall k :: 0 <= k < |all| && all[k].ip == ip ==> k == i;
    if now - stored[i].time <= 1800 { assert Appears(all, cutoff, ip); }
  }
}
