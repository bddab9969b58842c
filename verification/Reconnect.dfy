/** `WebSocketClient`: the reconnect machine, as a class on a browser that owns the sockets and the
    timers, and as steps whose every interleaving keeps the machine safe. */
module Reconnect {
  import opened Doubles
  import opened JsNumber
  import opened Options

  const MAX_RECONNECT_ATTEMPTS: nat := 10
  const BASE_RECONNECT_MS := 1000
  const MAX_RECONNECT_MS := 30000
  const SLOW_RETRY_MS := 60000
  const LAST_STEP: real := 1.0 / 0x10_0000_0000_0000 as real  // 2^-52
  const NORMAL_CLOSURE: nat := 1000
  const MESSAGE_TOO_BIG: nat := 1009

  /** The ready states in the only order a socket goes through them. */
  datatype ReadyState = Connecting | Open | Closing | Closed

  function Rank(r: ReadyState): nat {
    match r case Connecting => 0 case Open => 1 case Closing => 2 case Closed => 3
  }

  predicate Live(r: ReadyState) { r == Connecting || r == Open }

  /** The browser (every socket made so far, the pending timers with their delays) and the fields of
      the client. */
  datatype State = State(
    sockets: seq<ReadyState>,
    timers: map<nat, real>,
    nextTimer: nat,
    ws: Option<nat>,
    shouldReconnect: bool,
    reconnectTimer: Option<nat>,
    reconnectAttempts: nat,
    isConnected: bool)

  function Initial(): State { State([], map[], 0, None, true, None, 0, false) }

  // ---------- the effect of each method ----------

  function Min(a: int, b: int): int { if a < b then a else b }

  /** The wait, before jitter, that is chosen after the given number of attempts. */
  function Base(attempts: nat): int {
    if attempts < MAX_RECONNECT_ATTEMPTS then Min(MAX_RECONNECT_MS, BASE_RECONNECT_MS * Pow2(attempts))
    else SLOW_RETRY_MS
  }

  function Factor(random: real): real { Rounded(0.75 + random * 0.5) }

  /** The wait with its jitter, rounded as doubles round; halving is exact. */
  function Jittered(base: int, random: real): real { Rounded(Times(base as real, Factor(random))) }

  /** The socket that counts as present and usable. */
  predicate HasLive(s: State) { s.ws.Some? && s.ws.value < |s.sockets| && Live(s.sockets[s.ws.value]) }

  function Cancelled(s: State): State {
    if s.reconnectTimer.Some? then s.(timers := s.timers - {s.reconnectTimer.value}, reconnectTimer := None) else s
  }

  function Scheduled(s: State, random: real): State {
    if !s.shouldReconnect then s
    else
      var c := Cancelled(s);
      var a := c.reconnectAttempts;
      c.(reconnectAttempts := if a < MAX_RECONNECT_ATTEMPTS then a + 1 else a,
         timers := c.timers[c.nextTimer := Jittered(Base(c.reconnectAttempts), random)],
         nextTimer := c.nextTimer + 1,
         reconnectTimer := Some(c.nextTimer))
  }

  function Opened(s: State, throws: bool, random: real): State {
    if throws then Scheduled(s, random) else s.(sockets := s.sockets + [Connecting], ws := Some(|s.sockets|))
  }

  function Connected(s: State, throws: bool, random: real): State {
    if HasLive(s) then s else Opened(Cancelled(s.(shouldReconnect := true)), throws, random)
  }

  /** The codes that `close()` of the WHATWG WebSockets standard takes; it throws on any other. */
  predicate IsCloseCode(code: nat) { code == 1000 || 3000 <= code <= 4999 }

  /** `close(code)` in the browser, an exception swallowed: only a live socket starts closing. */
  function CloseSocket(sockets: seq<ReadyState>, socket: nat, code: nat): seq<ReadyState> {
    if IsCloseCode(code) && socket < |sockets| && Live(sockets[socket]) then sockets[socket := Closing] else sockets
  }

  function Disconnected(s: State): State {
    var c := Cancelled(s.(shouldReconnect := false)).(reconnectAttempts := 0, isConnected := false);
    if c.ws.Some? then c.(sockets := CloseSocket(c.sockets, c.ws.value, NORMAL_CLOSURE), ws := None) else c
  }

  function OnOpen(s: State, socket: nat): State {
    if s.ws == Some(socket) then s.(isConnected := true, reconnectAttempts := 0) else s
  }

  function OnOversized(s: State, socket: nat): State {
    if s.ws == Some(socket) then s.(sockets := CloseSocket(s.sockets, socket, MESSAGE_TOO_BIG)) else s
  }

  function OnClose(s: State, socket: nat, random: real): State {
    if s.ws != Some(socket) then s
    else
      var c := s.(isConnected := false, ws := None);
      if c.shouldReconnect then Scheduled(c, random) else c
  }

  function OnTimer(s: State, timer: nat, throws: bool, random: real): State {
    var c := s.(timers := s.timers - {timer}, reconnectTimer := None);
    if c.shouldReconnect then Opened(c, throws, random) else c
  }

  // ---------- the class ----------

  class Browser {
    var sockets: seq<ReadyState>
    var timers: map<nat, real>
    var nextTimer: nat

    constructor ()
      ensures sockets == [] && timers == map[] && nextTimer == 0
    {
      sockets, timers, nextTimer := [], map[], 0;
    }
  }

  class WebSocketClient {
    const browser: Browser
    var ws: Option<nat>
    var shouldReconnect: bool
    var reconnectTimer: Option<nat>
    var reconnectAttempts: nat
    var isConnected: bool

    function Now(): State
      reads this, browser
    {
      State(browser.sockets, browser.timers, browser.nextTimer, ws, shouldReconnect, reconnectTimer,
            reconnectAttempts, isConnected)
    }

    constructor (browser: Browser)
      requires browser.sockets == [] && browser.timers == map[] && browser.nextTimer == 0
      ensures this.browser == browser && Now() == Initial()
    {
      this.browser := browser;
      ws, shouldReconnect, reconnectTimer, reconnectAttempts, isConnected := None, true, None, 0, false;
    }

    method CancelReconnect()
      modifies this, browser
      ensures Now() == Cancelled(old(Now()))
    {
      if reconnectTimer.Some? {
        browser.timers := browser.timers - {reconnectTimer.value};
        reconnectTimer := None;
      }
    }

    method ScheduleReconnect(random: real)
      modifies this, browser
      ensures Now() == Scheduled(old(Now()), random)
    {
      hide Rounded, Pow2;
      if !shouldReconnect { return; }
      CancelReconnect();
      var base: int;
      if reconnectAttempts < MAX_RECONNECT_ATTEMPTS {
        reconnectAttempts := reconnectAttempts + 1;
        var exp := BASE_RECONNECT_MS * Pow2(reconnectAttempts - 1);
        base := Min(MAX_RECONNECT_MS, exp);
      } else {
        base := SLOW_RETRY_MS;
      }
      var delay := Rounded(Times(base as real, Rounded(0.75 + random * 0.5)));
      var timer := browser.nextTimer;
      browser.timers, browser.nextTimer := browser.timers[timer := delay], timer + 1;
      reconnectTimer := Some(timer);
    }

    method OpenSocket(throws: bool, random: real)
      modifies this, browser
      ensures Now() == Opened(old(Now()), throws, random)
    {
      if throws {
        ScheduleReconnect(random);
        return;
      }
      var socket := |browser.sockets|;
      browser.sockets := browser.sockets + [Connecting];
      ws := Some(socket);
    }

    method Connect(throws: bool, random: real)
      modifies this, browser
      ensures Now() == Connected(old(Now()), throws, random)
    {
      if ws.Some? && ws.value < |browser.sockets|
          && (browser.sockets[ws.value] == Open || browser.sockets[ws.value] == Connecting) {
        return;
      }
      shouldReconnect := true;
      CancelReconnect();
      OpenSocket(throws, random);
    }

    method Disconnect()
      modifies this, browser
      ensures Now() == Disconnected(old(Now()))
    {
      shouldReconnect := false;
      CancelReconnect();
      reconnectAttempts := 0;
      if ws.Some? {
        browser.sockets := CloseSocket(browser.sockets, ws.value, NORMAL_CLOSURE);
        ws := None;
      }
      isConnected := false;
    }

    method HandleOpen(socket: nat)
      modifies this
      ensures Now() == OnOpen(old(Now()), socket)
    {
      if ws != Some(socket) { return; }
      isConnected := true;
      reconnectAttempts := 0;
    }

    /** The message listener for a payload above the limit. */
    method HandleOversized(socket: nat)
      modifies browser
      ensures Now() == OnOversized(old(Now()), socket)
    {
      if ws != Some(socket) { return; }
      browser.sockets := CloseSocket(browser.sockets, socket, MESSAGE_TOO_BIG);
    }

    method HandleClose(socket: nat, random: real)
      modifies this, browser
      ensures Now() == OnClose(old(Now()), socket, random)
    {
      if ws != Some(socket) { return; }
      isConnected := false;
      ws := None;
      if shouldReconnect { ScheduleReconnect(random); }
    }

    /** The callback of a timer, which the browser has just taken off its list. */
    method HandleTimer(timer: nat, throws: bool, random: real)
      modifies this, browser
      ensures Now() == OnTimer(old(Now()), timer, throws, random)
    {
      browser.timers := browser.timers - {timer};
      reconnectTimer := None;
      if !shouldReconnect { return; }
      OpenSocket(throws, random);
    }
  }

  // ---------- every interleaving ----------

  /** What can happen next: a call, a timer that fires whenever it likes, a socket that moves on by
      itself, or an event of any socket ever made. */
  datatype Event =
    | Connect(throws: bool, random: real)
    | Disconnect
    | TimerFires(timer: nat, throws: bool, random: real)
    | Moves(socket: nat, to: ReadyState)
    | OpenEvent(socket: nat)
    | OversizedEvent(socket: nat)
    | CloseEvent(socket: nat, random: real)

  predicate Unit(random: real) { 0.0 <= random < 1.0 }

  predicate Enabled(s: State, e: Event) {
    match e
    case Connect(_, random) => Unit(random)
    case Disconnect => true
    case TimerFires(timer, _, random) => timer in s.timers && Unit(random)
    case Moves(socket, to) => socket < |s.sockets| && Rank(s.sockets[socket]) < Rank(to)
    case OpenEvent(socket) => socket < |s.sockets| && s.sockets[socket] == Open
    case OversizedEvent(socket) => socket < |s.sockets| && s.sockets[socket] == Open
    case CloseEvent(socket, random) => socket < |s.sockets| && s.sockets[socket] == Closed && Unit(random)
  }

  function Step(s: State, e: Event): State
    requires Enabled(s, e)
  {
    match e
    case Connect(throws, random) => Connected(s, throws, random)
    case Disconnect => Disconnected(s)
    case TimerFires(timer, throws, random) => OnTimer(s, timer, throws, random)
    case Moves(socket, to) => s.(sockets := s.sockets[socket := to])
    case OpenEvent(socket) => OnOpen(s, socket)
    case OversizedEvent(socket) => OnOversized(s, socket)
    case CloseEvent(socket, random) => OnClose(s, socket, random)
  }

  ghost predicate Follows(s: State, e: Event, t: State) { Enabled(s, e) && t == Step(s, e) }

  ghost predicate IsRun(states: seq<State>, events: seq<Event>) {
    && |states| == |events| + 1
    && states[0] == Initial()
    && (forall i :: 0 <= i < |events| ==> Follows(states[i], events[i], states[i + 1]))
  }

  // ---------- safety ----------

  /** At most one timer is pending, and the client knows it. */
  ghost predicate OneTimer(s: State) {
    && (forall id :: id in s.timers <==> s.reconnectTimer == Some(id))
    && (s.reconnectTimer.Some? ==> s.reconnectTimer.value < s.nextTimer)
  }

  /** A pending timer means that the current socket is neither open nor connecting. */
  ghost predicate TimerMeansDown(s: State) { s.reconnectTimer.Some? ==> s.shouldReconnect && !HasLive(s) }

  /** No socket but the current one is live, so no connection is ever leaked. */
  ghost predicate LiveIsCurrent(s: State) {
    && (s.ws.Some? ==> s.ws.value < |s.sockets|)
    && (forall i :: 0 <= i < |s.sockets| && Live(s.sockets[i]) ==> s.ws == Some(i))
  }

  ghost predicate Quiet(s: State) {
    !s.shouldReconnect && s.ws.None? && s.reconnectTimer.None? && !s.isConnected && s.reconnectAttempts == 0
  }

  ghost predicate Safe(s: State) {
    && OneTimer(s) && TimerMeansDown(s) && LiveIsCurrent(s)
    && s.reconnectAttempts <= MAX_RECONNECT_ATTEMPTS
    && (!s.shouldReconnect ==> Quiet(s))
    && (s.isConnected ==> s.ws.Some?)
  }

  lemma CancelSafe(s: State)
    requires OneTimer(s) && LiveIsCurrent(s)
    ensures var c := Cancelled(s); OneTimer(c) && c.timers == map[] && c.reconnectTimer.None? && LiveIsCurrent(c)
  {
  }

  lemma ScheduleSafe(s: State, random: real)
    requires OneTimer(s) && LiveIsCurrent(s) && !HasLive(s) && s.shouldReconnect
    requires s.reconnectAttempts <= MAX_RECONNECT_ATTEMPTS && (s.isConnected ==> s.ws.Some?)
    ensures Safe(Scheduled(s, random)) && Scheduled(s, random).reconnectTimer.Some?
  {
    CancelSafe(s);
  }

  lemma OpenSafe(s: State, throws: bool, random: real)
    requires OneTimer(s) && s.reconnectTimer.None? && LiveIsCurrent(s) && !HasLive(s) && s.shouldReconnect
    requires s.reconnectAttempts <= MAX_RECONNECT_ATTEMPTS && (s.isConnected ==> s.ws.Some?)
    ensures Safe(Opened(s, throws, random))
    ensures Opened(s, throws, random).ws.Some? || Opened(s, throws, random).reconnectTimer.Some?
  {
    if throws { ScheduleSafe(s, random); }
  }

  lemma StepSafe(s: State, e: Event)
    requires Safe(s) && Enabled(s, e)
    ensures Safe(Step(s, e))
  {
    match e
    case Connect(throws, random) =>
      if !HasLive(s) {
        CancelSafe(s.(shouldReconnect := true));
        OpenSafe(Cancelled(s.(shouldReconnect := true)), throws, random);
      }
    case Disconnect => CancelSafe(s.(shouldReconnect := false));
    case TimerFires(timer, throws, random) =>
      OpenSafe(s.(timers := s.timers - {timer}, reconnectTimer := None), throws, random);
    case CloseEvent(socket, random) =>
      if s.ws == Some(socket) { ScheduleSafe(s.(isConnected := false, ws := None), random); }
    case Moves(_, _) =>
    case OpenEvent(_) =>
    case OversizedEvent(_) =>
  }

  /** Every state of every run is safe. */
  lemma {:induction false} RunIsSafe(states: seq<State>, events: seq<Event>, i: nat)
    requires IsRun(states, events) && i < |states|
    ensures Safe(states[i])
  {
    if i > 0 {
      RunIsSafe(states, events, i - 1);
      assert Follows(states[i - 1], events[i - 1], states[i]);
      StepSafe(states[i - 1], events[i - 1]);
    }
  }

  /** Switched off: no timer waits and no socket is live. */
  ghost predicate IsSilent(s: State) {
    Quiet(s) && s.timers == map[] && forall k :: 0 <= k < |s.sockets| ==> !Live(s.sockets[k])
  }

  lemma DisconnectSilences(s: State)
    requires Safe(s)
    ensures IsSilent(Disconnected(s)) && |Disconnected(s).sockets| == |s.sockets|
  {
    CancelSafe(s.(shouldReconnect := false));
  }

  lemma SilentStep(s: State, e: Event)
    requires Safe(s) && IsSilent(s) && Enabled(s, e) && !e.Connect?
    ensures IsSilent(Step(s, e)) && |Step(s, e).sockets| == |s.sockets|
  {
  }

  /** After `disconnect` and until `connect` no socket is made, no timer waits, no socket is live. */
  lemma {:induction false} NothingUntilConnect(states: seq<State>, events: seq<Event>, start: nat, i: nat)
    requires IsRun(states, events) && start < i <= |events| && events[start] == Disconnect
    requires forall j :: start < j < i ==> !events[j].Connect?
    ensures IsSilent(states[i]) && |states[i].sockets| == |states[start].sockets|
  {
    hide Safe, IsSilent, Connected, Disconnected, OnTimer, OnClose, OnOpen, OnOversized;
    RunIsSafe(states, events, i - 1);
    assert Follows(states[i - 1], events[i - 1], states[i]);
    if start < i - 1 {
      NothingUntilConnect(states, events, start, i - 1);
      SilentStep(states[i - 1], events[i - 1]);
    } else {
      DisconnectSilences(states[start]);
    }
  }

  ghost predicate IsAwake(s: State) { s.shouldReconnect && (s.ws.Some? || s.reconnectTimer.Some?) }

  lemma ConnectWakes(s: State, throws: bool, random: real)
    requires Safe(s)
    ensures IsAwake(Connected(s, throws, random))
  {
  }

  lemma AwakeStep(s: State, e: Event)
    requires Safe(s) && IsAwake(s) && Enabled(s, e) && e != Disconnect
    ensures IsAwake(Step(s, e))
  {
  }

  /** From `connect` until `disconnect` the client never gets stuck: it has a socket, whose close
      event is yet to come, or a timer. */
  lemma {:induction false} NeverStuck(states: seq<State>, events: seq<Event>, start: nat, i: nat)
    requires IsRun(states, events) && start < i <= |events| && events[start].Connect?
    requires forall j :: start < j < i ==> events[j] != Disconnect
    ensures states[i].shouldReconnect && (states[i].ws.Some? || states[i].reconnectTimer.Some?)
  {
    hide Safe, Connected, Disconnected, OnTimer, OnClose, OnOpen, OnOversized;
    RunIsSafe(states, events, i - 1);
    assert Follows(states[i - 1], events[i - 1], states[i]);
    if start < i - 1 {
      NeverStuck(states, events, start, i - 1);
      AwakeStep(states[i - 1], events[i - 1]);
    } else {
      ConnectWakes(states[start], events[start].throws, events[start].random);
    }
  }

  // ---------- the waits ----------

  /** The step sets a timer. */
  predicate Schedules(s: State, t: State) { t.nextTimer != s.nextTimer }

  /** The step forgets the failures. */
  predicate Resets(s: State, e: Event) { e == Disconnect || (e.OpenEvent? && s.ws == Some(e.socket)) }

  lemma BaseRises(m: nat, n: nat)
    requires m <= n
    ensures 0 < Base(m) <= Base(n)
  {
    Pow2Mono(m, n);
  }

  /** One, two, four, eight and sixteen seconds, five times half a minute, then every minute. */
  lemma BaseTable(n: nat)
    ensures Base(n) == if n < 5 then [1000, 2000, 4000, 8000, 16000][n] else if n < 10 then 30000 else 60000
  {
    assert Pow2(5) == 32;
    if 5 <= n { Pow2Mono(5, n); }
  }

  lemma FactorInRange(random: real)
    requires Unit(random)
    ensures 0.75 <= Factor(random) <= 1.25
  {
    var x := 0.75 + random * 0.5;
    assert PerUnit(x) == if x < 1.0 then 0x20_0000_0000_0000 else 0x10_0000_0000_0000;
    var q: int := PerUnit(x) / 4;
    RoundedBetween(x, PerUnit(x) as real, 0.75, 1.25, 3 * q, 5 * q);
  }

  lemma Quarters(base: int)
    requires base % 4 == 0
    ensures 0.75 * base as real == (3 * (base / 4)) as real && 1.25 * base as real == (5 * (base / 4)) as real
  {
    var q := base / 4;
    assert base == 4 * q;
    assert base as real == 4.0 * q as real;
  }

  lemma Between(b: real, f: real)
    requires b > 0.0 && 0.75 <= f <= 1.25
    ensures 0.75 * b <= Times(b, f) <= 1.25 * b
  {
    TimesMono(0.75, f, b);
    TimesMono(f, 1.25, b);
    TimesRing(b, f, b);
  }

  lemma ScaledInRange(base: int, f: real)
    requires base > 0 && base % 4 == 0 && 0.75 <= f <= 1.25
    ensures 0.75 * base as real <= Rounded(Times(base as real, f)) <= 1.25 * base as real
  {
    hide Rounded;
    Between(base as real, f);
    Quarters(base);
    RoundedBetweenIntegers(Times(base as real, f), 3 * (base / 4), 5 * (base / 4));
  }

  /** Bases are multiples of 4, so three and five quarters of one are doubles. */
  lemma JitterInRange(base: int, random: real)
    requires base > 0 && base % 4 == 0 && Unit(random)
    ensures 0.75 * base as real <= Jittered(base, random) <= 1.25 * base as real
  {
    hide Rounded, Factor;
    FactorInRange(random);
    ScaledInRange(base, Factor(random));
  }

  /** The largest random numbers make the factor round up to 1.25, and only those. */
  lemma FactorBelowTop(random: real)
    requires Unit(random)
    ensures random >= 1.0 - LAST_STEP ==> Factor(random) == 1.25
    ensures random < 1.0 - LAST_STEP ==> Factor(random) <= 1.25 - LAST_STEP
  {
    var x := 0.75 + random * 0.5;
    if x < 1.0 {
      assert PerUnit(x) == 0x20_0000_0000_0000;
      RoundedBetween(x, PerUnit(x) as real, 0.75, 1.0, 0x18_0000_0000_0000, 0x20_0000_0000_0000);
    } else {
      assert PerUnit(x) == 0x10_0000_0000_0000;
      var y := x * 0x10_0000_0000_0000 as real;
      assert random >= 1.0 - LAST_STEP ==> y.Floor == 0x13_ffff_ffff_ffff;
    }
  }

  lemma PowersAboveBases()
    ensures Pow2(11) == 2048 && Pow2(12) == 4096 && Pow2(13) == 8192 && Pow2(14) == 16384
    ensures Pow2(15) == 32768 && Pow2(16) == 65536 && Pow2(17) == 131072
  {
    assert Pow2(5) == 32;
    assert Pow2(8) == 256 && Pow2(10) == 1024;
    Pow2Words();
  }

  lemma Pow2Of5()
    ensures Pow2(5) == 32
  {
  }

  lemma Pow2Of53()
    ensures Pow2(53) == 0x20_0000_0000_0000
  {
    hide Pow2;
    Pow2Words();
    Pow2Add(32, 16);
    Pow2Of5();
    Pow2Add(48, 5);
  }

  lemma SpacingBelow(x: real, k: nat)
    requires k <= 53 && x < Pow2(k) as real
    ensures PerUnit(x) >= Pow2(53 - k) && Pow2(53 - k) * Pow2(k) == 0x20_0000_0000_0000
  {
    hide Pow2, PerUnitFrom;
    Pow2Add(53 - k, k);
    assert Pow2(53) == 0x20_0000_0000_0000 by { Pow2Of53(); }
    DivModUnique(0x20_0000_0000_0000, Pow2(53 - k), 0, Pow2(k));
    PerUnitAtLeast(x, 1, 0x20_0000_0000_0000, k);
  }

  lemma Distribute(b: real, f: real)
    ensures Times(1.25 - f, b) == 1.25 * b - Times(b, f)
  {
    TimesRing(b, f, b);
    TimesRing(1.25, f, b);
  }

  lemma StepTimes(c: real)
    ensures Times(LAST_STEP, c) == c / 0x10_0000_0000_0000 as real
  {
  }

  lemma QuarterTimes(p: real, t: real)
    ensures Times(0.25 * p, t) == 0.25 * Times(p, t)
  {
  }

  lemma QuarterProduct(b: real, t: real, s: nat, p: nat)
    requires t == s as real && s >= 1 && p as real < 4.0 * b && s * p == 0x20_0000_0000_0000
    ensures Times(b, t) > 0x8_0000_0000_0000 as real
  {
    hide Times;
    var d := b - 0.25 * p as real;
    TimesPositive(d, t);
    TimesRing(b, 0.25 * p as real, t);
    QuarterTimes(p as real, t);
    TimesOfIntegers(s, p);
    TimesRing(t, p as real, t);
  }

  lemma Gap(base: int, f: real, u: real, s: nat, p: nat)
    requires base > 0 && f <= 1.25 - LAST_STEP && s >= 1 && u >= s as real && s * p == 0x20_0000_0000_0000
    requires p < 4 * base
    ensures Times(1.25 * base as real - Times(base as real, f), u) > 0.5
  {
    hide Times;
    var b, t, g := base as real, s as real, 1.25 - f;
    Distribute(b, f);
    QuarterProduct(b, t, s, p);
    TimesMono(LAST_STEP, g, Times(b, t));
    StepTimes(Times(b, t));
    TimesRing(g, b, t);
    TimesPositive(g, b);
    TimesMono(t, u, Times(g, b));
    TimesRing(t, Times(g, b), u);
    TimesRing(u, Times(g, b), u);
  }

  lemma Below(base: int, f: real, k: nat)
    requires 0 < base && base % 4 == 0 && k <= 53 && 0.75 <= f <= 1.25 - LAST_STEP
    requires 5 * base < 4 * Pow2(k) < 16 * base
    ensures Rounded(Times(base as real, f)) < 1.25 * base as real
  {
    hide PerUnit, RoundedTo, Pow2, Times;
    var x, top := Times(base as real, f), 5 * (base / 4);
    Between(base as real, f);
    Quarters(base);
    assert top as real < Pow2(k) as real;
    SpacingBelow(x, k);
    Gap(base, f, PerUnit(x) as real, Pow2(53 - k), Pow2(k));
    TimesOfIntegers(top, PerUnit(x));
    RoundedBelow(x, PerUnit(x) as real, top as real, top * PerUnit(x));
  }

  /** So the wait stays strictly below 1.25 times its base exactly for the other random numbers. */
  lemma JitterBelowExactly(attempts: nat, random: real)
    requires Unit(random)
    ensures Jittered(Base(attempts), random) < 1.25 * Base(attempts) as real <==> random < 1.0 - LAST_STEP
  {
    hide Rounded, Factor, Base, Pow2;
    BaseTable(attempts);
    FactorBelowTop(random);
    FactorInRange(random);
    var base, f := Base(attempts), Factor(random);
    var top := 5 * (base / 4);
    if random < 1.0 - LAST_STEP {
      PowersAboveBases();
      Below(base, f, if attempts < 5 then 11 + attempts else if attempts < 10 then 16 else 17);
    } else {
      Quarters(base);
      RoundedBetweenIntegers(Times(base as real, f), top, top);
    }
  }

  function RandomOf(e: Event): real {
    match e
    case Connect(_, r) => r
    case TimerFires(_, _, r) => r
    case CloseEvent(_, r) => r
    case _ => 0.0
  }

  lemma TimerOfStep(s: State, e: Event)
    requires Safe(s) && Enabled(s, e) && Schedules(s, Step(s, e))
    ensures Step(s, e).timers == map[s.nextTimer := Jittered(Base(s.reconnectAttempts), RandomOf(e))]
    ensures Unit(RandomOf(e))
  {
    hide Jittered, Base;
  }

  /** The timer a step sets waits its base, give or take a quarter, and is the only one; it waits
      strictly less than five quarters exactly unless the random number is the largest double. */
  lemma DelayOfStep(s: State, e: Event)
    requires Safe(s) && Enabled(s, e) && Schedules(s, Step(s, e))
    ensures var t, b := Step(s, e), Base(s.reconnectAttempts) as real;
            && t.timers.Keys == {s.nextTimer} && 0.75 * b <= t.timers[s.nextTimer] <= 1.25 * b
            && (t.timers[s.nextTimer] < 1.25 * b <==> RandomOf(e) < 1.0 - LAST_STEP)
  {
    hide Safe, Step, Jittered, Base, Unit, RandomOf;
    BaseTable(s.reconnectAttempts);
    TimerOfStep(s, e);
    JitterInRange(Base(s.reconnectAttempts), RandomOf(e));
    JitterBelowExactly(s.reconnectAttempts, RandomOf(e));
  }

  /** How often a reconnect was scheduled since the last open event or `disconnect`. */
  ghost function Failures(states: seq<State>, events: seq<Event>, i: nat): nat
    requires |states| == |events| + 1 && i < |states|
  {
    if i == 0 || Resets(states[i - 1], events[i - 1]) then 0
    else Failures(states, events, i - 1) + if Schedules(states[i - 1], states[i]) then 1 else 0
  }

  lemma AttemptsStep(s: State, e: Event)
    requires Enabled(s, e)
    ensures var a, t := s.reconnectAttempts, Step(s, e);
            t.reconnectAttempts
            == if Resets(s, e) then 0
               else if Schedules(s, t) && a < MAX_RECONNECT_ATTEMPTS then a + 1
               else a
  {
  }

  lemma {:induction false} AttemptsCountFailures(states: seq<State>, events: seq<Event>, i: nat)
    requires IsRun(states, events) && i < |states|
    ensures states[i].reconnectAttempts == Min(MAX_RECONNECT_ATTEMPTS, Failures(states, events, i))
  {
    hide Step, Resets, Schedules, Enabled;
    if i > 0 {
      AttemptsCountFailures(states, events, i - 1);
      assert Follows(states[i - 1], events[i - 1], states[i]);
      AttemptsStep(states[i - 1], events[i - 1]);
    }
  }

  /** Every wait of every run follows from the number of failures alone. */
  lemma WaitOfFailure(states: seq<State>, events: seq<Event>, i: nat)
    requires IsRun(states, events) && i < |events| && Schedules(states[i], states[i + 1])
    ensures var b := Base(Failures(states, events, i)) as real;
            && states[i + 1].timers.Keys == {states[i].nextTimer}
            && 0.75 * b <= states[i + 1].timers[states[i].nextTimer] <= 1.25 * b
  {
    RunIsSafe(states, events, i);
    AttemptsCountFailures(states, events, i);
    assert Follows(states[i], events[i], states[i + 1]);
    DelayOfStep(states[i], events[i]);
  }

  lemma {:induction false} FailuresRise(states: seq<State>, events: seq<Event>, i: nat, j: nat)
    requires |states| == |events| + 1 && i <= j < |states|
    requires forall k :: i <= k < j ==> !Resets(states[k], events[k])
    ensures Failures(states, events, i) <= Failures(states, events, j)
  {
    if i < j { FailuresRise(states, events, i, j - 1); }
  }

  /** While attempts fail the base never falls. */
  lemma BasesRise(states: seq<State>, events: seq<Event>, i: nat, j: nat)
    requires |states| == |events| + 1 && i <= j < |states|
    requires forall k :: i <= k < j ==> !Resets(states[k], events[k])
    ensures Base(Failures(states, events, i)) <= Base(Failures(states, events, j))
  {
    FailuresRise(states, events, i, j);
    BaseRises(Failures(states, events, i), Failures(states, events, j));
  }

  // ---------- what each step brings about ----------

  /** Exactly one new socket, which is connecting and current, and no timer. */
  ghost predicate MakesSocket(s: State, t: State) {
    t.sockets == s.sockets + [Connecting] && t.ws == Some(|s.sockets|) && t.timers == map[] && t.reconnectTimer == None
  }

  /** No new socket, but exactly one timer. */
  ghost predicate SetsTimer(s: State, t: State) {
    t.sockets == s.sockets && t.timers.Keys == {s.nextTimer} && t.reconnectTimer == Some(s.nextTimer)
  }

  /** A timer that fires opens a socket, or sets the next timer if the constructor throws. */
  lemma TimerReconnects(s: State, e: Event)
    requires Safe(s) && Enabled(s, e) && e.TimerFires?
    ensures s.shouldReconnect
    ensures if e.throws then SetsTimer(s, Step(s, e)) else MakesSocket(s, Step(s, e))
  {
    assert s.reconnectTimer == Some(e.timer);
  }

  /** `connect` does the same unless a socket is live already, and then it does nothing. */
  lemma ConnectConnects(s: State, e: Event)
    requires Safe(s) && Enabled(s, e) && e.Connect?
    ensures if s.ws.Some? && Live(s.sockets[s.ws.value]) then Step(s, e) == s
            else Step(s, e).shouldReconnect && if e.throws then SetsTimer(s, Step(s, e)) else MakesSocket(s, Step(s, e))
  {
    CancelSafe(s.(shouldReconnect := true));
  }

  /** The events of the current socket, and of all others. */
  lemma SocketEvents(s: State, e: Event)
    requires Safe(s) && Enabled(s, e)
    ensures e.OpenEvent? && s.ws == Some(e.socket) ==> Step(s, e) == s.(isConnected := true, reconnectAttempts := 0)
    ensures e.CloseEvent? && s.ws == Some(e.socket) ==>
              !Step(s, e).isConnected && Step(s, e).ws == None && SetsTimer(s, Step(s, e))
    ensures (e.OpenEvent? || e.CloseEvent?) && s.ws != Some(e.socket) ==> Step(s, e) == s
  {
  }

  /** `disconnect` closes the current socket and leaves the client switched off. */
  lemma DisconnectDisconnects(s: State)
    requires Safe(s)
    ensures var t := Disconnected(s);
            && !t.shouldReconnect && t.ws == None && t.timers == map[] && !t.isConnected && t.reconnectAttempts == 0
            && (s.ws.Some? && Live(s.sockets[s.ws.value]) ==> t.sockets == s.sockets[s.ws.value := Closing])
            && (!(s.ws.Some? && Live(s.sockets[s.ws.value])) ==> t.sockets == s.sockets)
  {
    CancelSafe(s.(shouldReconnect := false));
  }

  /** Over runs: whenever a timer fires and the constructor does not throw, the client has a new
      connecting socket; so a client that lost its connection does try again. */
  lemma FiringReconnects(states: seq<State>, events: seq<Event>, i: nat)
    requires IsRun(states, events) && i < |events| && events[i].TimerFires?
    ensures if events[i].throws then SetsTimer(states[i], states[i + 1]) else MakesSocket(states[i], states[i + 1])
  {
    RunIsSafe(states, events, i);
    assert Follows(states[i], events[i], states[i + 1]);
    TimerReconnects(states[i], events[i]);
  }

  // ---------- what an oversized message does ----------

  /** Nothing: browsers refuse its close code, so the connection stays open. */
  lemma OversizedClosesNothing(s: State, socket: nat)
    ensures OnOversized(s, socket) == s
  {
  }

  predicate IsLive(s: State, socket: nat) { socket < |s.sockets| && Live(s.sockets[socket]) }

  /** The socket closes by itself, or `disconnect` closes the current one. */
  predicate Ends(s: State, e: Event, socket: nat) {
    match e
    case Moves(moved, to) => moved == socket && !Live(to)
    case Disconnect => s.ws == Some(socket)
    case _ => false
  }

  /** In a safe state a step ends a live socket in just these two ways; replacing the socket, timers,
      events and oversized messages end none. */
  lemma StepEnds(s: State, e: Event, socket: nat)
    requires Safe(s) && Enabled(s, e) && IsLive(s, socket)
    ensures IsLive(Step(s, e), socket) <==> !Ends(s, e, socket)
  {
  }

  /** Over runs: a socket that is live at i stays live up to j exactly if nothing in between ends it. */
  lemma {:induction false} StaysLiveExactly(states: seq<State>, events: seq<Event>, i: nat, j: nat, socket: nat)
    requires IsRun(states, events) && i <= j < |states| && IsLive(states[i], socket)
    ensures (forall k :: i <= k <= j ==> IsLive(states[k], socket))
              <==> (forall k :: i <= k < j ==> !Ends(states[k], events[k], socket))
  {
    hide Step, Safe, IsLive, Ends;
    if i < j {
      StaysLiveExactly(states, events, i, j - 1, socket);
      RunIsSafe(states, events, j - 1);
      assert Follows(states[j - 1], events[j - 1], states[j]);
      if IsLive(states[j - 1], socket) { StepEnds(states[j - 1], events[j - 1], socket); }
    }
  }

  // ---------- what isConnected says ----------

  /** The client says it is connected while its socket is still connecting. */
  predicate Stale(s: State) {
    s.isConnected && s.ws.Some? && s.ws.value < |s.sockets| && s.sockets[s.ws.value] == Connecting
  }

  /** The step makes a socket before the close event of the previous one has come. */
  predicate ReplacesOpen(s: State, e: Event) {
    s.isConnected && ((e.Connect? && !e.throws && !HasLive(s)) || (e.TimerFires? && !e.throws))
  }

  lemma StaleStep(s: State, e: Event)
    requires Safe(s) && Enabled(s, e) && !Stale(s)
    ensures Stale(Step(s, e)) <==> ReplacesOpen(s, e)
  {
  }

  lemma InitialNotStale()
    ensures !Stale(Initial())
  {
  }

  lemma {:induction false} NotStale(states: seq<State>, events: seq<Event>, i: nat)
    requires IsRun(states, events) && i < |states|
    requires (forall k :: 0 <= k < |events| ==> !ReplacesOpen(states[k], events[k]))
    ensures !Stale(states[i])
  {
    hide Step, Safe, Stale, ReplacesOpen;
    if i == 0 {
      InitialNotStale();
    } else {
      NotStale(states, events, i - 1);
      RunIsSafe(states, events, i - 1);
      assert Follows(states[i - 1], events[i - 1], states[i]) && !ReplacesOpen(states[i - 1], events[i - 1]);
      StaleStep(states[i - 1], events[i - 1]);
    }
  }

  /** Over a whole run `isConnected` is never stale exactly if no socket is made while it is set. */
  lemma StaleExactly(states: seq<State>, events: seq<Event>)
    requires IsRun(states, events)
    ensures (forall i :: 0 <= i < |states| ==> !Stale(states[i]))
              <==> (forall i :: 0 <= i < |events| ==> !ReplacesOpen(states[i], events[i]))
  {
    if forall i :: 0 <= i < |states| ==> !Stale(states[i]) {
      forall i | 0 <= i < |events| ensures !ReplacesOpen(states[i], events[i]) {
        RunIsSafe(states, events, i);
        assert !Stale(states[i]) && !Stale(states[i + 1]) && Follows(states[i], events[i], states[i + 1]);
        StaleStep(states[i], events[i]);
      }
    }
    if forall i :: 0 <= i < |events| ==> !ReplacesOpen(states[i], events[i]) {
      forall i | 0 <= i < |states| ensures !Stale(states[i]) { NotStale(states, events, i); }
    }
  }

  /** It does happen: open, start closing, `connect`. */
  lemma StaleHappens()
    ensures exists states: seq<State>, events: seq<Event> :: IsRun(states, events) && Stale(states[|states| - 1])
  {
    var events := [Connect(false, 0.0), Moves(0, Open), OpenEvent(0), Moves(0, Closing), Connect(false, 0.0)];
    var s0 := Initial();
    var s1 := Step(s0, events[0]);
    var s2 := Step(s1, events[1]);
    var s3 := Step(s2, events[2]);
    var s4 := Step(s3, events[3]);
    var s5 := Step(s4, events[4]);
    var states := [s0, s1, s2, s3, s4, s5];
    forall i | 0 <= i < |events| ensures Follows(states[i], events[i], states[i + 1]) {
    }
    assert IsRun(states, events) && Stale(states[|states| - 1]);
  }
}
