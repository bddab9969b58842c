/** Who is online: the tracker of `xray.Process`, against the list of everything ever reported. */
module OnlineTracker {
  import opened Sequences

  const LOCAL_NODE := 0

  /** One refresh: the emails and inbound tags that had traffic, and when. */
  datatype Tick = Tick(emails: set<string>, tags: set<string>, now: int)

  ghost predicate NoDuplicates<T>(s: seq<T>) { forall i, j :: 0 <= i < j < |s| ==> s[i] != s[j] }

  // ---------- the specification ----------

  /** The clock never goes back. */
  ghost predicate Ordered(h: seq<Tick>) { forall i, j :: 0 <= i < j < |h| ==> h[i].now <= h[j].now }

  ghost predicate SeenIn(t: Tick, x: string, tag: bool) { if tag then x in t.tags else x in t.emails }

  /** x was reported at a refresh less than grace before the last one. */
  ghost predicate Recent(h: seq<Tick>, grace: int, x: string, tag: bool) {
    h != [] && exists i :: 0 <= i < |h| && SeenIn(h[i], x, tag) && h[|h| - 1].now - h[i].now < grace
  }

  ghost predicate ReportedAt(h: seq<Tick>, x: string, tag: bool, time: int) {
    exists i :: 0 <= i < |h| && SeenIn(h[i], x, tag) && h[i].now == time
  }

  /** Whatever the table says of x was reported and is recent; whatever recent refresh reported x,
      the table knows it or a newer one. */
  ghost predicate EntryAgrees(t: map<string, int>, h: seq<Tick>, grace: int, tag: bool, x: string) {
    && (x in t ==> h != [] && h[|h| - 1].now - t[x] < grace && ReportedAt(h, x, tag, t[x]))
    && (forall i :: 0 <= i < |h| && SeenIn(h[i], x, tag) && h[|h| - 1].now - h[i].now < grace ==>
        x in t && h[i].now <= t[x])
  }

  /** The table of last appearances holds exactly the recent ones, each with its newest time. */
  ghost predicate TableAgrees(t: map<string, int>, h: seq<Tick>, grace: int, tag: bool) {
    forall x: string {:trigger EntryAgrees(t, h, grace, tag, x)} :: EntryAgrees(t, h, grace, tag, x)
  }

  function Stamped(t: map<string, int>, active: set<string>, now: int): map<string, int> {
    map x | x in t.Keys + active :: if x in active then now else t[x]
  }

  function Kept(t: map<string, int>, now: int, grace: int): map<string, int> {
    map x | x in t && now - t[x] < grace :: t[x]
  }

  lemma EntryRefreshed(t: map<string, int>, h: seq<Tick>, grace: int, tag: bool, tick: Tick, x: string)
    requires EntryAgrees(t, h, grace, tag, x) && Ordered(h + [tick])
    ensures EntryAgrees(Kept(Stamped(t, if tag then tick.tags else tick.emails, tick.now), tick.now, grace),
              h + [tick], grace, tag, x)
  {
    var active := if tag then tick.tags else tick.emails;
    var u, g := Kept(Stamped(t, active, tick.now), tick.now, grace), h + [tick];
    assert g[|h|] == tick && (x in active <==> SeenIn(tick, x, tag));
    if x in u {
      if x in active {
        assert SeenIn(g[|h|], x, tag);
      } else {
        var i :| 0 <= i < |h| && SeenIn(h[i], x, tag) && h[i].now == t[x];
        assert g[i] == h[i];
      }
      assert ReportedAt(g, x, tag, u[x]);
    }
    forall i | 0 <= i < |g| && SeenIn(g[i], x, tag) && tick.now - g[i].now < grace ensures x in u && g[i].now <= u[x] {
      assert g[i].now <= tick.now;
      if i < |h| {
        assert g[i] == h[i] && g[|h| - 1] == h[|h| - 1] && h[|h| - 1].now <= tick.now;
      }
    }
  }

  /** Stamping and pruning keep the table exact although what it drops is gone for good. */
  lemma RefreshAgrees(t: map<string, int>, h: seq<Tick>, grace: int, tag: bool, tick: Tick)
    requires TableAgrees(t, h, grace, tag) && Ordered(h + [tick])
    ensures TableAgrees(Kept(Stamped(t, if tag then tick.tags else tick.emails, tick.now), tick.now, grace),
              h + [tick], grace, tag)
  {
    var u, g := Kept(Stamped(t, if tag then tick.tags else tick.emails, tick.now), tick.now, grace), h + [tick];
    forall x: string ensures EntryAgrees(u, g, grace, tag, x) {
      assert EntryAgrees(t, h, grace, tag, x);
      EntryRefreshed(t, h, grace, tag, tick, x);
    }
  }

  lemma TableIsRecent(t: map<string, int>, h: seq<Tick>, grace: int, tag: bool, x: string)
    requires TableAgrees(t, h, grace, tag)
    ensures x in t <==> Recent(h, grace, x, tag)
  {
    assert EntryAgrees(t, h, grace, tag, x);
  }

  /** A refresh less than grace ago reported the email, and all it reported with it is active. */
  ghost predicate IsTogether(t: Tick, h: seq<Tick>, grace: int, email: string, active: set<string>) {
    h != [] && email in t.emails && h[|h| - 1].now - t.now < grace && t.tags <= active
  }

  ghost predicate ActiveTogether(h: seq<Tick>, grace: int, email: string, active: set<string>) {
    exists i :: 0 <= i < |h| && IsTogether(h[i], h, grace, email, active)
  }

  /** An online email is never without the inbounds of the refresh that keeps it online. */
  lemma SameTickTogether(h: seq<Tick>, grace: int, email: string, active: set<string>)
    requires Recent(h, grace, email, false) && forall tag :: Recent(h, grace, tag, true) ==> tag in active
    ensures ActiveTogether(h, grace, email, active)
  {
    var i :| 0 <= i < |h| && SeenIn(h[i], email, false) && h[|h| - 1].now - h[i].now < grace;
    forall tag | tag in h[i].tags ensures tag in active {
      assert SeenIn(h[i], tag, true);
      assert Recent(h, grace, tag, true);
    }
    assert IsTogether(h[i], h, grace, email, active);
  }

  // ---------- the tracker ----------

  method Stamp(table: map<string, int>, active: seq<string>, now: int) returns (t: map<string, int>)
    ensures t == Stamped(table, Elements(active), now)
  {
    t := table;
    for i := 0 to |active|
      invariant t == Stamped(table, Elements(active[..i]), now)
    {
      assert active[..i + 1] == active[..i] + [active[i]];
      ElementsOfAppend(active[..i], active[i]);
      t := t[active[i] := now];
    }
    assert active[..|active|] == active;
  }

  method Prune(table: map<string, int>, now: int, graceMs: int) returns (t: map<string, int>, online: seq<string>)
    ensures t == Kept(table, now, graceMs)
    ensures Elements(online) == t.Keys && NoDuplicates(online)
  {
    t, online := table, [];
    var left := table.Keys;
    while left != {}
      invariant left <= table.Keys
      invariant t == map x | x in table && (x in left || now - table[x] < graceMs) :: table[x]
      invariant Elements(online) == t.Keys - left && NoDuplicates(online)
    {
      var x :| x in left;
      if now - t[x] < graceMs {
        assert x !in Elements(online);
        ElementsOfAppend(online, x);
        online := online + [x];
      } else {
        t := t - {x};
      }
      left := left - {x};
    }
  }

  /** The two halves of a refresh: stamp what is active, then list and prune in any order. */
  method StampAndPrune(table: map<string, int>, active: seq<string>, now: int, graceMs: int)
    returns (t: map<string, int>, online: seq<string>)
    ensures t == Kept(Stamped(table, Elements(active), now), now, graceMs)
    ensures Elements(online) == t.Keys && NoDuplicates(online)
  {
    t := Stamp(table, active, now);
    t, online := Prune(t, now, graceMs);
  }

  /** The inner loops of `GetOnlineClients`: append what has not been seen. */
  method AddNew(out: seq<string>, list: seq<string>) returns (more: seq<string>)
    requires NoDuplicates(out)
    ensures NoDuplicates(more) && Elements(more) == Elements(out) + Elements(list)
  {
    more := out;
    for i := 0 to |list|
      invariant NoDuplicates(more) && Elements(more) == Elements(out) + Elements(list[..i])
    {
      assert list[..i + 1] == list[..i] + [list[i]];
      ElementsOfAppend(list[..i], list[i]);
      if list[i] !in more {
        ElementsOfAppend(more, list[i]);
        more := more + [list[i]];
      } else {
        assert list[i] in Elements(more);
      }
    }
    assert list[..|list|] == list;
  }

  ghost function OnNodes(nodes: map<int, seq<string>>): set<string> {
    set id, e | id in nodes && e in nodes[id] :: e
  }

  lemma SomeNode(ids: set<int>)
    requires ids != {}
    ensures exists id :: id in ids
  {
    assert (forall id :: id !in ids) ==> ids == {};
  }

  lemma MoreNodes(nodes: map<int, seq<string>>, left: set<int>, id: int)
    requires left <= nodes.Keys && id in left
    ensures OnNodes(nodes - (left - {id})) == OnNodes(nodes - left) + Elements(nodes[id])
  {
    var a, b := nodes - (left - {id}), nodes - left;
    forall e | e in OnNodes(a) ensures e in OnNodes(b) + Elements(nodes[id]) {
      var j :| j in a && e in a[j];
      if j != id { assert j in b && e in b[j]; }
    }
    forall e | e in OnNodes(b) + Elements(nodes[id]) ensures e in OnNodes(a) {
      if e in OnNodes(b) {
        var j :| j in b && e in b[j];
        assert j in a && e in a[j];
      } else {
        assert id in a && e in a[id];
      }
    }
  }

  /** The groups that are reported: the local one, then every nonempty node; a node with the key
      of the local panel would replace it. */
  ghost function Groups(local: seq<string>, nodes: map<int, seq<string>>): map<int, seq<string>> {
    map id | id in nodes.Keys + {LOCAL_NODE}
      && ((id in nodes && nodes[id] != []) || (id == LOCAL_NODE && local != [])) ::
      if id in nodes && nodes[id] != [] then nodes[id] else local
  }

  lemma GroupsStart(local: seq<string>, nodes: map<int, seq<string>>)
    ensures Groups(local, nodes - nodes.Keys) == if local == [] then map[] else map[LOCAL_NODE := local]
  {
  }

  lemma OneMoreGroup(local: seq<string>, nodes: map<int, seq<string>>, left: set<int>, id: int)
    requires left <= nodes.Keys && id in left
    ensures var g := Groups(local, nodes - left);
            Groups(local, nodes - (left - {id})) == if nodes[id] != [] then g[id := nodes[id]] else g
  {
  }

  class Process {
    var onlineClients: seq<string>
    var localLastOnline: map<string, int>
    var localActiveInbounds: seq<string>
    var localInboundLastActive: map<string, int>
    var nodeOnlineClients: map<int, seq<string>>
    ghost var history: seq<Tick>
    ghost const grace: int

    /** Both lists are exactly what was reported less than grace ago, each entry once. */
    ghost predicate Valid()
      reads this
    {
      && Ordered(history)
      && TableAgrees(localLastOnline, history, grace, false)
      && TableAgrees(localInboundLastActive, history, grace, true)
      && Elements(onlineClients) == localLastOnline.Keys && NoDuplicates(onlineClients)
      && Elements(localActiveInbounds) == localInboundLastActive.Keys && NoDuplicates(localActiveInbounds)
    }

    constructor (ghost grace: int)
      ensures Valid() && this.grace == grace && history == [] && nodeOnlineClients == map[]
    {
      this.grace := grace;
      onlineClients, localActiveInbounds := [], [];
      localLastOnline, localInboundLastActive := map[], map[];
      nodeOnlineClients := map[];
      history := [];
    }

    /** `RefreshLocalOnline`. */
    method RefreshLocalOnline(activeEmails: seq<string>, activeInboundTags: seq<string>, now: int, graceMs: int)
      requires Valid() && graceMs == grace && (history != [] ==> history[|history| - 1].now <= now)
      modifies this
      ensures Valid() && nodeOnlineClients == old(nodeOnlineClients)
      ensures history == old(history) + [Tick(Elements(activeEmails), Elements(activeInboundTags), now)]
      ensures forall e :: e in onlineClients <==> Recent(history, grace, e, false)
      ensures forall t :: t in localActiveInbounds <==> Recent(history, grace, t, true)
      ensures forall e :: e in onlineClients ==> ActiveTogether(history, grace, e, Elements(localActiveInbounds))
    {
      ghost var tick := Tick(Elements(activeEmails), Elements(activeInboundTags), now);
      RefreshAgrees(localLastOnline, history, grace, false, tick);
      RefreshAgrees(localInboundLastActive, history, grace, true, tick);
      localLastOnline, onlineClients := StampAndPrune(localLastOnline, activeEmails, now, graceMs);
      localInboundLastActive, localActiveInbounds :=
        StampAndPrune(localInboundLastActive, activeInboundTags, now, graceMs);
      history := history + [tick];
      forall x ensures x in onlineClients <==> Recent(history, grace, x, false) {
        TableIsRecent(localLastOnline, history, grace, false, x);
        assert x in onlineClients <==> x in Elements(onlineClients);
      }
      forall x ensures x in localActiveInbounds <==> Recent(history, grace, x, true) {
        TableIsRecent(localInboundLastActive, history, grace, true, x);
        assert x in localActiveInbounds <==> x in Elements(localActiveInbounds);
      }
      forall e | e in onlineClients ensures ActiveTogether(history, grace, e, Elements(localActiveInbounds)) {
        SameTickTogether(history, grace, e, Elements(localActiveInbounds));
      }
    }

    /** `SetNodeOnlineClients`. */
    method SetNodeOnlineClients(nodeID: int, emails: seq<string>)
      requires Valid()
      modifies this`nodeOnlineClients
      ensures Valid() && nodeOnlineClients == old(nodeOnlineClients)[nodeID := emails]
    {
      nodeOnlineClients := nodeOnlineClients[nodeID := emails];
    }

    /** `ClearNodeOnlineClients`. */
    method ClearNodeOnlineClients(nodeID: int)
      requires Valid()
      modifies this`nodeOnlineClients
      ensures Valid() && nodeOnlineClients == old(nodeOnlineClients) - {nodeID}
    {
      nodeOnlineClients := nodeOnlineClients - {nodeID};
    }

    /** `GetOnlineClients`: the union, every email once. */
    method GetOnlineClients() returns (out: seq<string>)
      requires Valid()
      ensures NoDuplicates(out)
      ensures Elements(out) == Elements(onlineClients) + OnNodes(nodeOnlineClients)
    {
      if |nodeOnlineClients| == 0 {
        assert OnNodes(nodeOnlineClients) == {};
        return onlineClients;
      }
      out := AddNew([], onlineClients);
      var left := nodeOnlineClients.Keys;
      while left != {}
        invariant left <= nodeOnlineClients.Keys && NoDuplicates(out)
        invariant Elements(out) == Elements(onlineClients) + OnNodes(nodeOnlineClients - left)
      {
        SomeNode(left);
        var id :| id in left;
        out := AddNew(out, nodeOnlineClients[id]);
        MoreNodes(nodeOnlineClients, left, id);
        left := left - {id};
      }
      assert nodeOnlineClients - {} == nodeOnlineClients;
    }

    /** `GetOnlineClientsByNode`. */
    method GetOnlineClientsByNode() returns (out: map<int, seq<string>>)
      requires Valid()
      ensures out == Groups(onlineClients, nodeOnlineClients)
    {
      hide Groups;
      out := map[];
      if |onlineClients| > 0 { out := out[LOCAL_NODE := onlineClients]; }
      GroupsStart(onlineClients, nodeOnlineClients);
      var left := nodeOnlineClients.Keys;
      while left != {}
        invariant left <= nodeOnlineClients.Keys
        invariant out == Groups(onlineClients, nodeOnlineClients - left)
      {
        SomeNode(left);
        var id :| id in left;
        OneMoreGroup(onlineClients, nodeOnlineClients, left, id);
        if nodeOnlineClients[id] != [] { out := out[id := nodeOnlineClients[id]]; }
        left := left - {id};
      }
      assert nodeOnlineClients - {} == nodeOnlineClients;
    }

    /** `GetActiveInboundsByNode`. */
    method GetActiveInboundsByNode() returns (out: map<int, seq<string>>)
      requires Valid()
      ensures out == if localActiveInbounds == [] then map[] else map[0 := localActiveInbounds]
    {
      if |localActiveInbounds| == 0 { return map[]; }
      out := map[LOCAL_NODE := localActiveInbounds];
    }
  }

  /** The groups together hold exactly the emails of the flat list, provided no remote node uses
      the key of the local panel, or what it hides is reported elsewhere. */
  lemma GroupsMatchList(local: seq<string>, nodes: map<int, seq<string>>)
    ensures OnNodes(Groups(local, nodes)) == Elements(local) + OnNodes(nodes)
            <==> (LOCAL_NODE in nodes && nodes[LOCAL_NODE] != [] ==> Elements(local) <= OnNodes(nodes))
  {
    var g := Groups(local, nodes);
    var hidden := LOCAL_NODE in nodes && nodes[LOCAL_NODE] != [];
    forall e ensures e in OnNodes(g) <==> e in OnNodes(nodes) || (!hidden && e in Elements(local)) {
      if e in OnNodes(g) {
        var id :| id in g && e in g[id];
        if id in nodes && nodes[id] != [] { assert e in nodes[id]; }
      }
      if e in OnNodes(nodes) {
        var id :| id in nodes && e in nodes[id];
        assert id in g && e in g[id];
      }
      if !hidden && e in Elements(local) {
        assert LOCAL_NODE in g && e in g[LOCAL_NODE];
      }
    }
  }

  /** It does differ when remote node 0 hides the local group. */
  lemma HiddenGroup()
    ensures var local, nodes := ["a"], map[LOCAL_NODE := ["b"]];
            OnNodes(Groups(local, nodes)) != Elements(local) + OnNodes(nodes)
  {
    var local, nodes := ["a"], map[LOCAL_NODE := ["b"]];
    GroupsMatchList(local, nodes);
    assert local[0] in Elements(local);
    assert nodes[LOCAL_NODE] == ["b"] && "a" !in ["b"];
  }

  /** Local clients are under 0, those of a node under its id; empty groups are left out. */
  lemma GroupsByNode(local: seq<string>, nodes: map<int, seq<string>>, id: int)
    ensures var g := Groups(local, nodes);
            if id in nodes && nodes[id] != [] then id in g && g[id] == nodes[id]
            else if id == 0 && local != [] then id in g && g[id] == local
            else id !in g
  {
  }
}
