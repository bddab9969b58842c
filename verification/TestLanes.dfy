/** `testAllOutbounds`: which lane an outbound goes to, and the workers that drain the two lanes, as
    steps taken wherever an await returns. */
module TestLanes {

  const TCP_WORKERS: nat := 8
  const HTTP_WORKERS: nat := 1

  /** An entry of the template; an absent field is the empty string. */
  datatype Outbound = Missing | Outbound(tag: string, protocol: string, network: string)

  datatype Item = Item(index: nat, outbound: Outbound)

  datatype Rule = Skip | Tcp | Http

  function Protocol(ob: Outbound): string { if ob.Missing? then "" else ob.protocol }

  predicate IsUdpOutbound(ob: Outbound) {
    ob.Outbound?
    && (ob.protocol == "wireguard" || ob.protocol == "hysteria" || ob.network == "hysteria"
        || ob.network == "kcp" || ob.network == "quic")
  }

  function Classify(ob: Outbound, mode: string): Rule {
    if Protocol(ob) == "blackhole" || Protocol(ob) == "loopback" || (ob.Outbound? && ob.tag == "blocked") then Skip
    else if mode == "tcp" && (Protocol(ob) == "freedom" || Protocol(ob) == "dns") then Skip
    else if mode == "http" || IsUdpOutbound(ob) then Http
    else Tcp
  }

  // ---------- the queues ----------

  /** The item is the entry at its index, which lies below n, and the rule sends it to the lane. */
  ghost predicate Belongs(item: Item, list: seq<Outbound>, mode: string, rule: Rule, n: nat) {
    item.index < n && item.index < |list| && item.outbound == list[item.index] && Classify(item.outbound, mode) == rule
  }

  /** q holds, in order and once each, the entries below n that the rule sends to the lane. */
  ghost predicate IsLane(q: seq<Item>, list: seq<Outbound>, mode: string, rule: Rule, n: nat)
    requires n <= |list|
  {
    && (forall k :: 0 <= k < |q| ==> Belongs(q[k], list, mode, rule, n))
    && (forall j, k :: 0 <= j < k < |q| ==> q[j].index < q[k].index)
    && (forall item :: Belongs(item, list, mode, rule, n) ==> item in q)
  }

  lemma LaneGrows(q: seq<Item>, list: seq<Outbound>, mode: string, rule: Rule, n: nat)
    requires n < |list| && IsLane(q, list, mode, rule, n)
    ensures IsLane(if Classify(list[n], mode) == rule then q + [Item(n, list[n])] else q, list, mode, rule, n + 1)
  {
    hide Classify;
    var last := Item(n, list[n]);
    var r := if Classify(list[n], mode) == rule then q + [last] else q;
    forall k | 0 <= k < |r| ensures Belongs(r[k], list, mode, rule, n + 1) {
      if k < |q| { assert Belongs(q[k], list, mode, rule, n); }
    }
    forall item | Belongs(item, list, mode, rule, n + 1) ensures item in r {
      if item.index == n {
        assert item == last && r[|q|] == last;
      } else {
        assert Belongs(item, list, mode, rule, n) && item in q;
      }
    }
  }

  method BuildQueues(list: seq<Outbound>, mode: string) returns (tcpQueue: seq<Item>, httpQueue: seq<Item>)
    ensures IsLane(tcpQueue, list, mode, Tcp, |list|)
    ensures IsLane(httpQueue, list, mode, Http, |list|)
  {
    tcpQueue, httpQueue := [], [];
    for i := 0 to |list|
      invariant IsLane(tcpQueue, list, mode, Tcp, i)
      invariant IsLane(httpQueue, list, mode, Http, i)
    {
      hide IsLane, Classify;
      LaneGrows(tcpQueue, list, mode, Tcp, i);
      LaneGrows(httpQueue, list, mode, Http, i);
      var lane := Classify(list[i], mode);
      if lane == Http {
        httpQueue := httpQueue + [Item(i, list[i])];
      } else if lane == Tcp {
        tcpQueue := tcpQueue + [Item(i, list[i])];
      }
    }
  }

  lemma {:induction false} OnceInLane(q: seq<Item>, list: seq<Outbound>, mode: string, rule: Rule, k: nat, i: nat)
    requires IsLane(q, list, mode, rule, |list|) && i < |list| && k <= |q|
    ensures multiset(q[..k])[Item(i, list[i])] == if Item(i, list[i]) in q[..k] then 1 else 0
  {
    if k > 0 {
      OnceInLane(q, list, mode, rule, k - 1, i);
      assert q[..k] == q[..k - 1] + [q[k - 1]];
      assert q[k - 1] !in q[..k - 1];
    }
  }

  /** The two queues share no entry, and an entry is in neither exactly if the rule skips it. */
  lemma OneLaneOrSkipped(tcp: seq<Item>, http: seq<Item>, list: seq<Outbound>, mode: string, i: nat)
    requires IsLane(tcp, list, mode, Tcp, |list|) && IsLane(http, list, mode, Http, |list|) && i < |list|
    ensures multiset(tcp)[Item(i, list[i])] + multiset(http)[Item(i, list[i])]
            == if Classify(list[i], mode).Skip? then 0 else 1
  {
    OnceInLane(tcp, list, mode, Tcp, |tcp|, i);
    OnceInLane(http, list, mode, Http, |http|, i);
    assert tcp[..|tcp|] == tcp && http[..|http|] == http;
  }

  // ---------- one lane ----------

  datatype Worker = Testing(item: Item) | Finished

  /** The queue, what each worker does, and the tests that have returned. */
  datatype State = State(queue: seq<Item>, workers: seq<Worker>, done: seq<Item>)

  function Held(w: Worker): multiset<Item> { if w.Testing? then multiset{w.item} else multiset{} }

  /** What the first n workers have in flight. */
  function Flying(ws: seq<Worker>, n: nat): multiset<Item>
    requires n <= |ws|
  {
    if n == 0 then multiset{} else Flying(ws, n - 1) + Held(ws[n - 1])
  }

  function InFlight(s: State): multiset<Item> { Flying(s.workers, |s.workers|) }

  /** A worker at the head of its loop: the next item, or the end. */
  function NextWorker(queue: seq<Item>): Worker { if |queue| > 0 then Testing(queue[0]) else Finished }

  function Rest(queue: seq<Item>): seq<Item> { if |queue| > 0 then queue[1..] else queue }

  /** The test of worker w returns. */
  function Returned(s: State, w: nat): State
    requires w < |s.workers| && s.workers[w].Testing?
  {
    State(Rest(s.queue), s.workers[w := NextWorker(s.queue)], s.done + [s.workers[w].item])
  }

  function Min(a: nat, b: nat): nat { if a < b then a else b }

  /** All workers have been made, each up to its first await. */
  function Started(queue: seq<Item>, concurrency: nat): State {
    var n := Min(concurrency, |queue|);
    State(queue[n..], seq(n, i requires 0 <= i < n => Testing(queue[i])), [])
  }

  class Lane {
    var queue: seq<Item>
    var workers: seq<Worker>
    var done: seq<Item>

    function Now(): State
      reads this
    {
      State(queue, workers, done)
    }

    /** `runLane` up to its await. */
    constructor (items: seq<Item>, concurrency: nat)
      ensures Now() == Started(items, concurrency)
    {
      queue, workers, done := items, [], [];
      new;
      var length := Min(concurrency, |queue|);
      for i := 0 to length
        invariant queue == items[i..] && done == []
        invariant |workers| == i && forall k :: 0 <= k < i ==> workers[k] == Testing(items[k])
      {
        var item := Shift();
        workers := workers + [Testing(item)];
      }
    }

    method Shift() returns (item: Item)
      requires |queue| > 0
      modifies `queue
      ensures item == old(queue)[0] && queue == old(queue)[1..]
    {
      item := queue[0];
      queue := queue[1..];
    }

    /** A worker goes on when its test has returned. */
    method Resume(w: nat)
      requires w < |workers| && workers[w].Testing?
      modifies this
      ensures Now() == Returned(old(Now()), w)
    {
      done := done + [workers[w].item];
      if |queue| > 0 {
        var item := Shift();
        workers := workers[w := Testing(item)];
      } else {
        workers := workers[w := Finished];
      }
    }
  }

  lemma {:induction false} FlyingBefore(ws: seq<Worker>, w: nat, v: Worker, n: nat)
    requires n <= w < |ws|
    ensures Flying(ws[w := v], n) == Flying(ws, n)
  {
    if n > 0 { FlyingBefore(ws, w, v, n - 1); }
  }

  lemma AddLast(a: multiset<Item>, b: multiset<Item>, last: multiset<Item>, x: multiset<Item>, y: multiset<Item>)
    requires a + x == b + y
    ensures (a + last) + x == (b + last) + y
  {
    assert (a + last) + x == (a + x) + last;
    assert (b + y) + last == (b + last) + y;
  }

  lemma {:induction false} FlyingUpdate(ws: seq<Worker>, w: nat, v: Worker, n: nat)
    requires w < n <= |ws|
    ensures Flying(ws[w := v], n) + Held(ws[w]) == Flying(ws, n) + Held(v)
  {
    hide Held;
    var ws' := ws[w := v];
    if w == n - 1 {
      FlyingBefore(ws, w, v, n - 1);
      assert (Flying(ws, n - 1) + Held(v)) + Held(ws[w]) == (Flying(ws, n - 1) + Held(ws[w])) + Held(v);
    } else {
      FlyingUpdate(ws, w, v, n - 1);
      AddLast(Flying(ws', n - 1), Flying(ws, n - 1), Held(ws[n - 1]), Held(ws[w]), Held(v));
    }
  }

  lemma {:induction false} FlyingOfTesting(ws: seq<Worker>, items: seq<Item>, n: nat)
    requires n <= |ws| && n <= |items| && forall k :: 0 <= k < n ==> ws[k] == Testing(items[k])
    ensures Flying(ws, n) == multiset(items[..n])
  {
    if n > 0 {
      FlyingOfTesting(ws, items, n - 1);
      assert items[..n] == items[..n - 1] + [items[n - 1]];
    }
  }

  function Busy(ws: seq<Worker>, n: nat): nat
    requires n <= |ws|
  {
    if n == 0 then 0 else Busy(ws, n - 1) + if ws[n - 1].Testing? then 1 else 0
  }

  lemma {:induction false} FlyingIsBusy(ws: seq<Worker>, n: nat)
    requires n <= |ws|
    ensures |Flying(ws, n)| == Busy(ws, n)
  {
    if n > 0 {
      FlyingIsBusy(ws, n - 1);
      assert |Held(ws[n - 1])| == if ws[n - 1].Testing? then 1 else 0;
    }
  }

  lemma {:induction false} BusyIsAtMost(ws: seq<Worker>, n: nat)
    requires n <= |ws|
    ensures Busy(ws, n) <= n
    ensures (forall k :: 0 <= k < n ==> ws[k].Testing?) ==> Busy(ws, n) == n
    ensures Busy(ws, n) == 0 <==> (forall k :: 0 <= k < n ==> ws[k].Finished?)
  {
    if n > 0 { BusyIsAtMost(ws, n - 1); }
  }

  lemma {:induction false} FlyingIsAtMost(ws: seq<Worker>, n: nat)
    requires n <= |ws|
    ensures |Flying(ws, n)| <= n
    ensures (forall k :: 0 <= k < n ==> ws[k].Testing?) ==> |Flying(ws, n)| == n
    ensures |Flying(ws, n)| == 0 <==> (forall k :: 0 <= k < n ==> ws[k].Finished?)
  {
    FlyingIsBusy(ws, n);
    BusyIsAtMost(ws, n);
  }

  /** The items of a lane are spread over queue, workers and results, each exactly once; the queue is
      what is left of them in order; and no worker rests while the queue has anything. */
  ghost predicate Partition(s: State, items: seq<Item>, concurrency: nat) {
    && multiset(s.queue) + InFlight(s) + multiset(s.done) == multiset(items)
    && |s.queue| <= |items| && s.queue == items[|items| - |s.queue|..]
    && |s.workers| == Min(concurrency, |items|)
    && (|s.queue| > 0 ==> forall k :: 0 <= k < |s.workers| ==> s.workers[k].Testing?)
  }

  lemma StartedPartition(items: seq<Item>, concurrency: nat)
    ensures Partition(Started(items, concurrency), items, concurrency)
  {
    var n, s := Min(concurrency, |items|), Started(items, concurrency);
    FlyingOfTesting(s.workers, items, n);
    assert InFlight(s) == multiset(items[..n]) && s.queue == items[n..] && multiset(s.done) == multiset{};
    assert items == items[..n] + items[n..];
    assert multiset(items) == multiset(items[..n]) + multiset(items[n..]);
    assert multiset(s.queue) + InFlight(s) + multiset(s.done) == multiset(items);
  }

  /** An item moves from the queue into flight while another lands: nothing is lost or doubled. */
  lemma Conserved(q: multiset<Item>, r: multiset<Item>, f: multiset<Item>, f': multiset<Item>, d: multiset<Item>,
                  taken: multiset<Item>, landed: multiset<Item>)
    requires q == r + taken && f' + landed == f + taken
    ensures r + f' + (d + landed) == q + f + d
  {
    assert r + f' + (d + landed) == r + (f' + landed) + d;
    assert r + (f + taken) + d == (r + taken) + f + d;
  }

  lemma QueueHead(queue: seq<Item>)
    ensures multiset(queue) == multiset(Rest(queue)) + Held(NextWorker(queue))
  {
    if |queue| > 0 { assert queue == [queue[0]] + queue[1..]; }
  }

  lemma ReturnedItems(s: State, w: nat)
    requires w < |s.workers| && s.workers[w].Testing?
    ensures var t := Returned(s, w);
            multiset(t.queue) + InFlight(t) + multiset(t.done) == multiset(s.queue) + InFlight(s) + multiset(s.done)
  {
    hide Flying;
    FlyingUpdate(s.workers, w, NextWorker(s.queue), |s.workers|);
    QueueHead(s.queue);
    assert multiset(s.done + [s.workers[w].item]) == multiset(s.done) + Held(s.workers[w]);
    Conserved(multiset(s.queue), multiset(Rest(s.queue)), InFlight(s), InFlight(Returned(s, w)), multiset(s.done),
        Held(NextWorker(s.queue)), Held(s.workers[w]));
  }

  lemma ReturnedPartition(s: State, items: seq<Item>, concurrency: nat, w: nat)
    requires Partition(s, items, concurrency) && w < |s.workers| && s.workers[w].Testing?
    ensures Partition(Returned(s, w), items, concurrency)
  {
    hide InFlight, Held;
    ReturnedItems(s, w);
    if |s.queue| > 0 { assert s.queue[1..] == items[|items| - |s.queue[1..]|..]; }
  }

  // ---------- every interleaving of the two lanes ----------

  /** One await returns: the test of a worker of one of the lanes. */
  datatype Event = Event(tcp: bool, worker: nat)

  datatype Lanes = Lanes(tcp: State, http: State)

  predicate Enabled(l: Lanes, e: Event) {
    var s := if e.tcp then l.tcp else l.http;
    e.worker < |s.workers| && s.workers[e.worker].Testing?
  }

  function Step(l: Lanes, e: Event): Lanes
    requires Enabled(l, e)
  {
    if e.tcp then l.(tcp := Returned(l.tcp, e.worker)) else l.(http := Returned(l.http, e.worker))
  }

  ghost predicate Follows(l: Lanes, e: Event, m: Lanes) { Enabled(l, e) && m == Step(l, e) }

  ghost predicate IsRun(run: seq<Lanes>, events: seq<Event>, tcp: seq<Item>, http: seq<Item>) {
    && |run| == |events| + 1
    && run[0] == Lanes(Started(tcp, TCP_WORKERS), Started(http, HTTP_WORKERS))
    && forall i :: 0 <= i < |events| ==> Follows(run[i], events[i], run[i + 1])
  }

  lemma NothingDone(items: seq<Item>, concurrency: nat)
    ensures Started(items, concurrency).done == []
  {
  }

  /** At every moment of every run both lanes are partitioned, and every step finishes one test. */
  lemma {:induction false} RunPartitions(run: seq<Lanes>, events: seq<Event>, tcp: seq<Item>, http: seq<Item>, i: nat)
    requires IsRun(run, events, tcp, http) && i < |run|
    ensures Partition(run[i].tcp, tcp, TCP_WORKERS) && Partition(run[i].http, http, HTTP_WORKERS)
    ensures |run[i].tcp.done| + |run[i].http.done| == i
  {
    hide Partition, Started;
    if i == 0 {
      StartedPartition(tcp, TCP_WORKERS);
      StartedPartition(http, HTTP_WORKERS);
      NothingDone(tcp, TCP_WORKERS);
      NothingDone(http, HTTP_WORKERS);
    } else {
      RunPartitions(run, events, tcp, http, i - 1);
      var l, e := run[i - 1], events[i - 1];
      assert Follows(l, e, run[i]);
      if e.tcp {
        ReturnedPartition(l.tcp, tcp, TCP_WORKERS, e.worker);
      } else {
        ReturnedPartition(l.http, http, HTTP_WORKERS, e.worker);
      }
    }
  }

  /** At most eight tcp tests and one http test are in flight, and exactly that many (or all there
      are) while their queue has anything. */
  lemma InFlightBound(run: seq<Lanes>, events: seq<Event>, tcp: seq<Item>, http: seq<Item>, i: nat)
    requires IsRun(run, events, tcp, http) && i < |run|
    ensures |InFlight(run[i].tcp)| <= 8 && |InFlight(run[i].http)| <= 1
    ensures |run[i].tcp.queue| > 0 ==> |InFlight(run[i].tcp)| == Min(8, |tcp|)
    ensures |run[i].http.queue| > 0 ==> |InFlight(run[i].http)| == 1
  {
    RunPartitions(run, events, tcp, http, i);
    FlyingIsAtMost(run[i].tcp.workers, |run[i].tcp.workers|);
    FlyingIsAtMost(run[i].http.workers, |run[i].http.workers|);
  }

  /** A lane has done everything exactly if all its workers have finished. */
  lemma LaneSizes(s: State, items: seq<Item>, concurrency: nat)
    requires Partition(s, items, concurrency) && concurrency > 0
    ensures |s.done| <= |items|
    ensures (forall k :: 0 <= k < |s.workers| ==> s.workers[k].Finished?) <==> |s.done| == |items|
    ensures |s.done| == |items| <==> multiset(s.done) == multiset(items)
  {
    FlyingIsAtMost(s.workers, |s.workers|);
    assert |multiset(s.queue)| + |InFlight(s)| + |multiset(s.done)| == |multiset(items)|;
    if |s.done| == |items| {
      assert multiset(s.queue) == multiset{} && InFlight(s) == multiset{};
    }
  }

  /** No run is longer than the number of items; one that has not yet done them all can go on; and
      one that cannot go on has done each item exactly once. */
  lemma AllRunsDrain(run: seq<Lanes>, events: seq<Event>, tcp: seq<Item>, http: seq<Item>)
    requires IsRun(run, events, tcp, http)
    ensures |events| <= |tcp| + |http|
    ensures var l := run[|events|];
            (forall e :: !Enabled(l, e))
            <==> (multiset(l.tcp.done) == multiset(tcp) && multiset(l.http.done) == multiset(http))
    ensures (forall e :: !Enabled(run[|events|], e)) <==> |events| == |tcp| + |http|
  {
    var l := run[|events|];
    RunPartitions(run, events, tcp, http, |events|);
    LaneSizes(l.tcp, tcp, TCP_WORKERS);
    LaneSizes(l.http, http, HTTP_WORKERS);
    if forall e :: !Enabled(l, e) {
      forall w | 0 <= w < |l.tcp.workers| ensures l.tcp.workers[w].Finished? { assert !Enabled(l, Event(true, w)); }
      forall w | 0 <= w < |l.http.workers| ensures l.http.workers[w].Finished? { assert !Enabled(l, Event(false, w)); }
    }
  }

  /** From the list to the results: when nothing can go on, each outbound has been handed to
      `testOutbound` once, or not at all exactly if the rule skips it. */
  lemma EveryOutboundOnce(list: seq<Outbound>, mode: string, tcp: seq<Item>, http: seq<Item>, run: seq<Lanes>,
                          events: seq<Event>, i: nat)
    requires IsLane(tcp, list, mode, Tcp, |list|) && IsLane(http, list, mode, Http, |list|) && i < |list|
    requires IsRun(run, events, tcp, http) && forall e :: !Enabled(run[|events|], e)
    ensures var l := run[|events|];
            multiset(l.tcp.done)[Item(i, list[i])] + multiset(l.http.done)[Item(i, list[i])]
            == if Classify(list[i], mode).Skip? then 0 else 1
  {
    AllRunsDrain(run, events, tcp, http);
    OneLaneOrSkipped(tcp, http, list, mode, i);
  }

  // ---------- which lane, in terms of the entry ----------

  predicate IsSkipped(ob: Outbound, mode: string) {
    ob.Outbound? && (ob.tag == "blocked" || ob.protocol in {"blackhole", "loopback"}
                     || (mode == "tcp" && ob.protocol in {"freedom", "dns"}))
  }

  predicate NeedsHttp(ob: Outbound, mode: string) {
    mode == "http" || (ob.Outbound? && (ob.protocol in {"wireguard", "hysteria"}
        || ob.network in {"hysteria", "kcp", "quic"}))
  }

  lemma RuleOfEntry(ob: Outbound, mode: string)
    ensures Classify(ob, mode)
            == if IsSkipped(ob, mode) then Skip else if NeedsHttp(ob, mode) then Http else Tcp
  {
  }

  /** What the two queues hold of each entry, by its protocol, tag and network and the mode. */
  lemma LanesHold(tcp: seq<Item>, http: seq<Item>, list: seq<Outbound>, mode: string, i: nat)
    requires IsLane(tcp, list, mode, Tcp, |list|) && IsLane(http, list, mode, Http, |list|) && i < |list|
    ensures Item(i, list[i]) in http <==> !IsSkipped(list[i], mode) && NeedsHttp(list[i], mode)
    ensures Item(i, list[i]) in tcp <==> !IsSkipped(list[i], mode) && !NeedsHttp(list[i], mode)
  {
    var item := Item(i, list[i]);
    RuleOfEntry(list[i], mode);
    hide Classify;
    assert Belongs(item, list, mode, Tcp, |list|) <==> Classify(list[i], mode) == Tcp;
    assert Belongs(item, list, mode, Http, |list|) <==> Classify(list[i], mode) == Http;
  }
}
