/** The single-connection reference client: one loop of pacing, sending, reading and reconnecting,
    with the network's answers as inputs. */
module ProbeLoop {
  import opened Arith
  import opened OpenLoop
  import opened Recorders
  import opened Wrappers

  const MAX_CONSECUTIVE_ERRORS: int := 100

  function SatSub(a: nat, b: nat): nat { Max(a - b, 0) }

  /** Measures the interval a client was ready to send but could not. */
  class StallTracker {
    var recorder: Recorder
    var blockedSince: Option<nat>
    var outOfRange: nat
    var backwards: nat

    constructor ()
      ensures recorder == FRESH && blockedSince == None && outOfRange == 0 && backwards == 0
    {
      recorder := FRESH;
      blockedSince := None;
      outOfRange := 0;
      backwards := 0;
    }

    /** The intervals closed so far, with the tracker's own out-of-range count folded in. */
    function Closed(): Recorder
      reads this
    {
      recorder.(outOfRange := recorder.outOfRange + outOfRange)
    }

    method OnBlocked(nowNs: nat)
      modifies `blockedSince
      ensures blockedSince == if old(blockedSince).None? then Some(nowNs) else old(blockedSince)
      ensures Closed() == old(Closed())
    {
      if blockedSince.None? {
        blockedSince := Some(nowNs);
      }
    }

    method OnUnblocked(nowNs: nat)
      modifies this
      ensures blockedSince == None
      ensures old(blockedSince).None? ==> Closed() == old(Closed()) && backwards == old(backwards)
      ensures old(blockedSince).Some? ==>
        && Closed() == RecordNs(old(Closed()), SatSub(nowNs, old(blockedSince).value))
        && backwards == old(backwards) + (if nowNs < old(blockedSince).value then 1 else 0)
    {
      if blockedSince.None? {
        return;
      }
      var since := blockedSince.value;
      blockedSince := None;
      if nowNs < since {
        backwards := backwards + 1;
      }
      var stallNs := SatSub(nowNs, since);
      if stallNs > HIGH_NS {
        outOfRange := outOfRange + 1;
      } else {
        recorder := RecordNs(recorder, stallNs);
      }
    }
  }

  // ----- what the world does in one iteration, and what comes of it

  datatype Exchange = Failed | Completed(ttfbNs: nat, completionNs: nat, ok: bool, needsReconnect: bool)

  /** Everything iteration i reads from outside: the requested reset generation, whether fresh
      recorders can be allocated, the stop flag, and the outcome of each network operation. */
  datatype World = World(
    requested: nat, allocates: bool, stop: bool, reconnects: bool, connectNs: nat, inTime: bool, writes: bool,
    sendNow: nat, exchange: Exchange)

  datatype Event = Event(reconnected: bool, written: bool, exchange: Exchange)

  function EventOf(w: World, connected: bool): Event {
    if !connected && !w.reconnects then Event(false, false, Failed)
    else if !w.inTime || !w.writes then Event(!connected, false, Failed)
    else Event(!connected, true, w.exchange)
  }

  function Connected(ws: seq<World>, n: nat): bool
    requires n <= |ws|
    decreases n, 0
  {
    n == 0 || (var e := Ev(ws, n - 1); e.exchange.Completed? && !e.exchange.needsReconnect)
  }

  function Ev(ws: seq<World>, i: nat): Event
    requires i < |ws|
    decreases i, 1
  {
    EventOf(ws[i], Connected(ws, i))
  }

  function Count(p: Event -> bool, ws: seq<World>, a: nat, n: nat): nat
    requires a <= n <= |ws|
    decreases n - a
  {
    if a == n then 0 else Count(p, ws, a, n - 1) + (if p(Ev(ws, n - 1)) then 1 else 0)
  }

  predicate IsOk(e: Event) { e.exchange.Completed? && e.exchange.ok }
  predicate IsBad(e: Event) { e.exchange.Completed? && !e.exchange.ok }
  predicate IsError(e: Event) { e.exchange.Failed? }
  predicate IsReconnect(e: Event) { e.reconnected }
  predicate IsWritten(e: Event) { e.written }
  predicate IsAnswered(e: Event) { e.exchange.Completed? }

  /** How many of the latest exchanges failed in a row. */
  function Streak(ws: seq<World>, n: nat): nat
    requires n <= |ws|
  {
    if n == 0 || !IsError(Ev(ws, n - 1)) then 0 else Streak(ws, n - 1) + 1
  }

  // ----- resets

  /** The generation acknowledged after the heads of iterations 0 to h - 1. */
  function Acked(ws: seq<World>, h: nat): nat
    requires h <= |ws|
    decreases h, 0
  {
    if h == 0 then 0 else if Swaps(ws, h - 1) then ws[h - 1].requested else Acked(ws, h - 1)
  }

  predicate Asked(ws: seq<World>, i: nat)
    requires i < |ws|
    decreases i, 1
  {
    ws[i].requested != Acked(ws, i)
  }

  predicate Swaps(ws: seq<World>, i: nat)
    requires i < |ws|
    decreases i, 2
  {
    Asked(ws, i) && ws[i].allocates
  }

  /** The iteration whose head swapped the recorders last, or 0. */
  function Since(ws: seq<World>, h: nat): (a: nat)
    requires h <= |ws|
    ensures a <= h && (h > 0 ==> a < h)
  {
    if h == 0 then 0 else if Swaps(ws, h - 1) then h - 1 else Since(ws, h - 1)
  }

  // ----- what the recorders should hold

  function DueAt(c: Config, i: nat): nat
    requires Accepted(c)
  {
    DivAtLeast(i * NANOS, c.rateHz, 0);
    Due(c, i)
  }

  /** Latency from the due time, for each exchange completed in iterations a to n - 1. */
  function Latencies(c: Config, ws: seq<World>, a: nat, n: nat): seq<nat>
    requires Accepted(c) && a <= n <= |ws|
    decreases n - a
  {
    if a == n then []
    else
      var e := Ev(ws, n - 1);
      Latencies(c, ws, a, n - 1)
      + (if e.exchange.Completed? then [SatSub(e.exchange.completionNs, DueAt(c, n - 1))] else [])
  }

  function Ttfbs(c: Config, ws: seq<World>, a: nat, n: nat): seq<nat>
    requires Accepted(c) && a <= n <= |ws|
    decreases n - a
  {
    if a == n then []
    else
      var e := Ev(ws, n - 1);
      Ttfbs(c, ws, a, n - 1)
      + (if e.exchange.Completed? then [SatSub(e.exchange.ttfbNs, DueAt(c, n - 1))] else [])
  }

  /** The duration of each reconnect in iterations a to n - 1. */
  function Reconnects(ws: seq<World>, a: nat, n: nat): seq<nat>
    requires a <= n <= |ws|
    decreases n - a
  {
    if a == n then []
    else Reconnects(ws, a, n - 1) + (if Ev(ws, n - 1).reconnected then [ws[n - 1].connectNs] else [])
  }

  /** No recorder was swapped at the heads of iterations 0 to h - 1. */
  predicate NeverSwapped(ws: seq<World>, h: nat)
    requires h <= |ws|
  {
    h == 0 || (!Swaps(ws, h - 1) && NeverSwapped(ws, h - 1))
  }

  /** The connect recorder starts with the connection made before the loop. */
  function Connects(first: nat, ws: seq<World>, h: nat, n: nat): seq<nat>
    requires h <= |ws| && Since(ws, h) <= n <= |ws|
  {
    (if NeverSwapped(ws, h) then [first] else []) + Reconnects(ws, Since(ws, h), n)
  }

  /** The oldest request still waiting to be written after iterations a to n - 1; n if none is. */
  function Waiting(ws: seq<World>, a: nat, n: nat): (k: nat)
    requires a <= n <= |ws|
    ensures a <= k <= n
    decreases n - a
  {
    if a == n || Ev(ws, n - 1).written then n else Waiting(ws, a, n - 1)
  }

  /** For each written request, how long the oldest waiting request had been due. */
  function Stalls(c: Config, ws: seq<World>, a: nat, n: nat): seq<nat>
    requires Accepted(c) && a <= n <= |ws|
    decreases n - a
  {
    if a == n then []
    else
      Stalls(c, ws, a, n - 1)
      + (if Ev(ws, n - 1).written
         then [SatSub(ws[n - 1].sendNow, DueAt(c, Waiting(ws, a, n - 1)))] else [])
  }

  /** In-range latency samples held when a reset was last asked for, seen from head h. */
  function Discarded(c: Config, ws: seq<World>, h: nat): nat
    requires Accepted(c) && h <= |ws|
  {
    if h == 0 then 0
    else if Asked(ws, h - 1) then |RecordAll(Latencies(c, ws, Since(ws, h - 1), h - 1)).samples|
    else Discarded(c, ws, h - 1)
  }

  lemma NextCount(p: Event -> bool, ws: seq<World>, n: nat)
    requires n < |ws|
    ensures Count(p, ws, 0, n + 1) == Count(p, ws, 0, n) + (if p(Ev(ws, n)) then 1 else 0)
  {
  }

  lemma NextCounts(ws: seq<World>, n: nat)
    requires n < |ws|
    ensures var e := Ev(ws, n);
      && Count(IsOk, ws, 0, n + 1) == Count(IsOk, ws, 0, n) + (if IsOk(e) then 1 else 0)
      && Count(IsBad, ws, 0, n + 1) == Count(IsBad, ws, 0, n) + (if IsBad(e) then 1 else 0)
      && Count(IsError, ws, 0, n + 1) == Count(IsError, ws, 0, n) + (if IsError(e) then 1 else 0)
      && Count(IsReconnect, ws, 0, n + 1) == Count(IsReconnect, ws, 0, n) + (if e.reconnected then 1 else 0)
      && Streak(ws, n + 1) == (if IsError(e) then Streak(ws, n) + 1 else 0)
      && Connected(ws, n + 1) == (e.exchange.Completed? && !e.exchange.needsReconnect)
      && e == EventOf(ws[n], Connected(ws, n))
  {
    NextCount(IsOk, ws, n);
    NextCount(IsBad, ws, n);
    NextCount(IsError, ws, n);
    NextCount(IsReconnect, ws, n);
  }

  lemma NextSamples(c: Config, ws: seq<World>, a: nat, n: nat)
    requires Accepted(c) && a <= n < |ws|
    ensures var e := Ev(ws, n);
      && RecordAll(Latencies(c, ws, a, n + 1))
         == (var r := RecordAll(Latencies(c, ws, a, n));
             if e.exchange.Completed? then RecordNs(r, SatSub(e.exchange.completionNs, DueAt(c, n))) else r)
      && RecordAll(Ttfbs(c, ws, a, n + 1))
         == (var r := RecordAll(Ttfbs(c, ws, a, n));
             if e.exchange.Completed? then RecordNs(r, SatSub(e.exchange.ttfbNs, DueAt(c, n))) else r)
  {
    var e := Ev(ws, n);
    if e.exchange.Completed? {
      RecordSnoc(Latencies(c, ws, a, n), SatSub(e.exchange.completionNs, DueAt(c, n)));
      RecordSnoc(Ttfbs(c, ws, a, n), SatSub(e.exchange.ttfbNs, DueAt(c, n)));
    } else {
      assert Latencies(c, ws, a, n) + [] == Latencies(c, ws, a, n);
      assert Ttfbs(c, ws, a, n) + [] == Ttfbs(c, ws, a, n);
    }
  }

  lemma NextStalls(c: Config, ws: seq<World>, a: nat, n: nat)
    requires Accepted(c) && a <= n < |ws|
    ensures var e := Ev(ws, n);
      && Waiting(ws, a, n + 1) == (if e.written then n + 1 else Waiting(ws, a, n))
      && RecordAll(Stalls(c, ws, a, n + 1))
         == (var r := RecordAll(Stalls(c, ws, a, n));
             if e.written then RecordNs(r, SatSub(ws[n].sendNow, DueAt(c, Waiting(ws, a, n)))) else r)
  {
    if Ev(ws, n).written {
      RecordSnoc(Stalls(c, ws, a, n), SatSub(ws[n].sendNow, DueAt(c, Waiting(ws, a, n))));
    } else {
      assert Stalls(c, ws, a, n) + [] == Stalls(c, ws, a, n);
    }
  }

  lemma NextConnects(first: nat, ws: seq<World>, h: nat, n: nat)
    requires h <= |ws| && Since(ws, h) <= n < |ws|
    ensures RecordAll(Connects(first, ws, h, n + 1))
         == (var r := RecordAll(Connects(first, ws, h, n));
             if Ev(ws, n).reconnected then RecordNs(r, ws[n].connectNs) else r)
  {
    hide NeverSwapped, Since;
    var a := Since(ws, h);
    var opening := if NeverSwapped(ws, h) then [first] else [];
    if Ev(ws, n).reconnected {
      RecordSnoc(Connects(first, ws, h, n), ws[n].connectNs);
      var sample := [ws[n].connectNs];
      assert opening + (Reconnects(ws, a, n) + sample) == (opening + Reconnects(ws, a, n)) + sample;
    } else {
      assert Reconnects(ws, a, n) + [] == Reconnects(ws, a, n);
    }
  }

  lemma NextHeadConnects(first: nat, ws: seq<World>, n: nat)
    requires n < |ws|
    ensures Swaps(ws, n) ==> Connects(first, ws, n + 1, n) == []
    ensures !Swaps(ws, n) ==> Connects(first, ws, n + 1, n) == Connects(first, ws, n, n)
  {
  }

  lemma NextHead(c: Config, ws: seq<World>, n: nat)
    requires Accepted(c) && n < |ws|
    ensures Acked(ws, n + 1) == if Swaps(ws, n) then ws[n].requested else Acked(ws, n)
    ensures Since(ws, n + 1) == if Swaps(ws, n) then n else Since(ws, n)
    ensures Discarded(c, ws, n + 1)
         == if Asked(ws, n) then |RecordAll(Latencies(c, ws, Since(ws, n), n)).samples| else Discarded(c, ws, n)
    ensures RecordAll(Latencies(c, ws, n, n)) == FRESH && RecordAll(Ttfbs(c, ws, n, n)) == FRESH
    ensures RecordAll(Stalls(c, ws, n, n)) == FRESH
    ensures Waiting(ws, n, n) == n
  {
  }

  // ----- the loop's state, as a value

  datatype Snapshot = Snapshot(
    latency: Recorder, ttfb: Recorder, closed: Recorder, blocked: Option<nat>,
    issued: nat, ok: nat, bad: nat, errors: nat, reconnects: nat, consecutiveErrors: nat,
    aborted: bool, ackGeneration: nat, connected: bool, discarded: nat, connect: Recorder, firstConnectNs: nat)

  /** Every counter is a count over the exchanges so far. */
  predicate Counted(s: Snapshot, ws: seq<World>, n: nat)
    requires n <= |ws|
  {
    && s.issued == n
    && s.ok == Count(IsOk, ws, 0, n)
    && s.bad == Count(IsBad, ws, 0, n)
    && s.errors == Count(IsError, ws, 0, n)
    && s.reconnects == Count(IsReconnect, ws, 0, n)
    && s.consecutiveErrors == Streak(ws, n)
    && s.connected == Connected(ws, n)
    && s.aborted == (Streak(ws, n) >= MAX_CONSECUTIVE_ERRORS)
  }

  /** The latency recorders hold the samples of iterations a to n - 1. */
  predicate HoldsLatencies(s: Snapshot, c: Config, ws: seq<World>, a: nat, n: nat)
    requires Accepted(c) && a <= n <= |ws|
  {
    && s.latency == RecordAll(Latencies(c, ws, a, n))
    && s.ttfb == RecordAll(Ttfbs(c, ws, a, n))
  }

  /** The stall recorder holds the intervals closed in iterations a to n - 1, and an open interval
      dates from the oldest request still waiting. */
  predicate HoldsStalls(s: Snapshot, c: Config, ws: seq<World>, a: nat, n: nat)
    requires Accepted(c) && a <= n <= |ws|
  {
    && s.closed == RecordAll(Stalls(c, ws, a, n))
    && s.blocked == (var k := Waiting(ws, a, n); if k == n then None else Some(DueAt(c, k)))
  }

  predicate HoldsConnects(s: Snapshot, ws: seq<World>, h: nat, n: nat)
    requires h <= |ws| && Since(ws, h) <= n <= |ws|
  {
    s.connect == RecordAll(Connects(s.firstConnectNs, ws, h, n))
  }

  predicate Recorded(s: Snapshot, c: Config, ws: seq<World>, h: nat, n: nat)
    requires Accepted(c) && h <= |ws| && Since(ws, h) <= n <= |ws|
  {
    && HoldsLatencies(s, c, ws, Since(ws, h), n)
    && HoldsStalls(s, c, ws, Since(ws, h), n)
    && HoldsConnects(s, ws, h, n)
  }

  predicate Acknowledged(s: Snapshot, c: Config, ws: seq<World>, h: nat)
    requires Accepted(c) && h <= |ws|
  {
    s.ackGeneration == Acked(ws, h) && s.discarded == Discarded(c, ws, h)
  }

  function ErrorCounted(s: Snapshot): Snapshot {
    s.(errors := s.errors + 1, consecutiveErrors := s.consecutiveErrors + 1, connected := false,
       aborted := s.aborted || s.consecutiveErrors + 1 >= MAX_CONSECUTIVE_ERRORS)
  }

  function BlockedFrom(s: Snapshot, due: nat): nat { if s.blocked.None? then due else s.blocked.value }

  function AfterReconnect(s: Snapshot, w: World): Snapshot {
    if s.connected then s
    else s.(connected := true, reconnects := s.reconnects + 1, connect := RecordNs(s.connect, w.connectNs))
  }

  /** Pacing, reconnecting and writing. */
  function AfterSend(s: Snapshot, due: nat, w: World): Snapshot {
    var s1 := s.(issued := s.issued + 1, blocked := Some(BlockedFrom(s, due)));
    if !s1.connected && !w.reconnects then ErrorCounted(s1)
    else
      var s2 := AfterReconnect(s1, w);
      if !w.inTime || !w.writes then ErrorCounted(s2)
      else s2.(blocked := None, closed := RecordNs(s2.closed, SatSub(w.sendNow, BlockedFrom(s, due))))
  }

  /** Reading and classifying the answer. */
  function AfterRead(s: Snapshot, due: nat, w: World): Snapshot {
    match w.exchange
    case Failed => ErrorCounted(s)
    case Completed(ttfbNs, completionNs, ok, needsReconnect) =>
      s.(latency := RecordNs(s.latency, SatSub(completionNs, due)),
         ttfb := RecordNs(s.ttfb, SatSub(ttfbNs, due)),
         ok := s.ok + (if ok then 1 else 0), bad := s.bad + (if ok then 0 else 1),
         consecutiveErrors := 0, connected := s.connected && !needsReconnect)
  }

  function AfterIteration(s: Snapshot, due: nat, w: World): Snapshot {
    var s' := AfterSend(s, due, w);
    if EventOf(w, s.connected).written then AfterRead(s', due, w) else s'
  }

  lemma IterationCounts(s: Snapshot, ws: seq<World>, n: nat, due: nat)
    requires n < |ws| && Counted(s, ws, n) && !s.aborted
    ensures Counted(AfterIteration(s, due, ws[n]), ws, n + 1)
  {
    NextCounts(ws, n);
    hide Count, Streak, Connected, Ev, RecordNs, SatSub;
  }

  /** What one iteration does to the recorders, by what became of its exchange. */
  lemma IterationFields(s: Snapshot, due: nat, w: World)
    ensures var e := EventOf(w, s.connected);
      var s' := AfterIteration(s, due, w);
      && s'.latency == (if e.exchange.Completed?
                        then RecordNs(s.latency, SatSub(e.exchange.completionNs, due)) else s.latency)
      && s'.ttfb == (if e.exchange.Completed?
                     then RecordNs(s.ttfb, SatSub(e.exchange.ttfbNs, due)) else s.ttfb)
      && s'.connect == (if e.reconnected then RecordNs(s.connect, w.connectNs) else s.connect)
      && s'.firstConnectNs == s.firstConnectNs
      && s'.closed == (if e.written then RecordNs(s.closed, SatSub(w.sendNow, BlockedFrom(s, due))) else s.closed)
      && s'.blocked == (if e.written then None else Some(BlockedFrom(s, due)))
      && s'.ackGeneration == s.ackGeneration && s'.discarded == s.discarded
  {
    hide RecordNs, SatSub;
  }

  lemma IterationLatencies(s: Snapshot, c: Config, ws: seq<World>, a: nat, n: nat)
    requires Accepted(c) && a <= n < |ws| && HoldsLatencies(s, c, ws, a, n) && s.connected == Connected(ws, n)
    ensures HoldsLatencies(AfterIteration(s, DueAt(c, n), ws[n]), c, ws, a, n + 1)
  {
    assert Ev(ws, n) == EventOf(ws[n], s.connected);
    NextSamples(c, ws, a, n);
    IterationFields(s, DueAt(c, n), ws[n]);
    hide Connected, Ev, EventOf, RecordNs, SatSub, Latencies, Ttfbs, RecordAll, DueAt, AfterIteration, Accepted;
  }

  lemma IterationStalls(s: Snapshot, c: Config, ws: seq<World>, a: nat, n: nat)
    requires Accepted(c) && a <= n < |ws| && HoldsStalls(s, c, ws, a, n) && s.connected == Connected(ws, n)
    ensures HoldsStalls(AfterIteration(s, DueAt(c, n), ws[n]), c, ws, a, n + 1)
  {
    assert Ev(ws, n) == EventOf(ws[n], s.connected);
    NextStalls(c, ws, a, n);
    IterationFields(s, DueAt(c, n), ws[n]);
    hide Connected, Ev, EventOf, RecordNs, SatSub, Stalls, Waiting, RecordAll, DueAt, AfterIteration, Accepted;
  }

  lemma IterationConnects(s: Snapshot, ws: seq<World>, h: nat, n: nat, due: nat)
    requires h <= |ws| && Since(ws, h) <= n < |ws| && HoldsConnects(s, ws, h, n) && s.connected == Connected(ws, n)
    ensures HoldsConnects(AfterIteration(s, due, ws[n]), ws, h, n + 1)
  {
    assert Ev(ws, n) == EventOf(ws[n], s.connected);
    NextConnects(s.firstConnectNs, ws, h, n);
    IterationFields(s, due, ws[n]);
    hide Connected, Ev, EventOf, RecordNs, Connects, RecordAll, AfterIteration, Since;
  }

  function AfterHead(s: Snapshot, w: World): Snapshot {
    if w.requested == s.ackGeneration then s
    else if !w.allocates then s.(discarded := |s.latency.samples|)
    else s.(discarded := |s.latency.samples|, latency := FRESH, ttfb := FRESH, closed := FRESH,
            connect := FRESH, blocked := None, ackGeneration := w.requested)
  }

  lemma HeadSamples(s: Snapshot, c: Config, ws: seq<World>, n: nat)
    requires Accepted(c) && n < |ws| && Recorded(s, c, ws, n, n) && Acknowledged(s, c, ws, n)
    ensures Recorded(AfterHead(s, ws[n]), c, ws, n + 1, n)
    ensures Acknowledged(AfterHead(s, ws[n]), c, ws, n + 1)
  {
    NextHead(c, ws, n);
    NextHeadConnects(s.firstConnectNs, ws, n);
    assert RecordAll([]) == FRESH;
    assert Asked(ws, n) == (ws[n].requested != s.ackGeneration);
    assert Swaps(ws, n) == (ws[n].requested != s.ackGeneration && ws[n].allocates);
    hide Acked, Since, Discarded, Latencies, Ttfbs, Stalls, Waiting, Connects, RecordAll, Asked, Swaps, Accepted;
  }

  // ----- the loop

  class Probe {
    const config: Config
    var latency: Recorder
    var ttfb: Recorder
    var connect: Recorder
    const firstConnectNs: nat
    var stall: StallTracker
    var issued: nat
    var ok: nat
    var bad: nat
    var errors: nat
    var reconnects: nat
    var consecutiveErrors: nat
    var aborted: bool
    var ackGeneration: nat
    var connected: bool
    var discarded: nat

    function Snap(): Snapshot
      reads this, stall
    {
      Snapshot(latency, ttfb, stall.Closed(), stall.blockedSince, issued, ok, bad, errors, reconnects,
               consecutiveErrors, aborted, ackGeneration, connected, discarded, connect, firstConnectNs)
    }

    /** A probe that took connectNs to connect for the first time. */
    constructor (c: Config, connectNs: nat)
      ensures config == c && fresh(stall)
      ensures Snap() == Initial(connectNs)
    {
      config := c;
      firstConnectNs := connectNs;
      connect := RecordNs(FRESH, connectNs);
      latency := FRESH;
      ttfb := FRESH;
      issued, ok, bad, errors, reconnects, consecutiveErrors := 0, 0, 0, 0, 0, 0;
      aborted := false;
      ackGeneration := 0;
      connected := true;
      discarded := 0;
      stall := new StallTracker();
    }

    /** The reset check at the head of an iteration. */
    method Head(w: World)
      modifies `latency, `ttfb, `connect, `stall, `ackGeneration, `discarded
      ensures Snap() == AfterHead(old(Snap()), w)
      ensures stall == old(stall) || fresh(stall)
    {
      hide RecordNs;
      if w.requested != ackGeneration {
        discarded := |latency.samples|;
        if w.allocates {
          latency := FRESH;
          ttfb := FRESH;
          connect := FRESH;
          stall := new StallTracker();
          ackGeneration := w.requested;
        }
      }
    }

    method CountError()
      modifies `errors, `consecutiveErrors, `aborted, `connected
      ensures Snap() == ErrorCounted(old(Snap()))
    {
      errors := errors + 1;
      consecutiveErrors := consecutiveErrors + 1;
      connected := false;
      if consecutiveErrors >= MAX_CONSECUTIVE_ERRORS {
        aborted := true;
      }
    }

    /** A connection that is down and can be made again. */
    method Reconnect(w: World)
      modifies `reconnects, `connect, `connected
      ensures Snap() == AfterReconnect(old(Snap()), w)
    {
      hide RecordNs, StallTracker.Closed;
      if !connected {
        connect := RecordNs(connect, w.connectNs);
        connected := true;
        reconnects := reconnects + 1;
      }
    }

    method Send(due: nat, w: World) returns (written: bool)
      modifies `issued, `errors, `reconnects, `connect, `consecutiveErrors, `aborted, `connected, stall
      ensures written == EventOf(w, old(connected)).written
      ensures Snap() == AfterSend(old(Snap()), due, w)
    {
      hide RecordNs, SatSub, StallTracker.Closed, ErrorCounted, AfterReconnect;
      stall.OnBlocked(due);
      issued := issued + 1;
      if !connected && !w.reconnects {
        CountError();
        return false;
      }
      Reconnect(w);
      if !w.inTime || !w.writes {
        CountError();
        return false;
      }
      stall.OnUnblocked(w.sendNow);
      return true;
    }

    method Receive(due: nat, w: World)
      modifies `latency, `ttfb, `ok, `bad, `errors, `consecutiveErrors, `aborted, `connected
      ensures Snap() == AfterRead(old(Snap()), due, w)
    {
      hide RecordNs, SatSub, StallTracker.Closed, ErrorCounted;
      if w.exchange.Failed? {
        CountError();
        return;
      }
      latency := RecordNs(latency, SatSub(w.exchange.completionNs, due));
      ttfb := RecordNs(ttfb, SatSub(w.exchange.ttfbNs, due));
      consecutiveErrors := 0;
      if w.exchange.ok {
        ok := ok + 1;
      } else {
        bad := bad + 1;
      }
      if w.exchange.needsReconnect {
        connected := false;
      }
    }

    /** One iteration after its head. */
    method Drive(due: nat, w: World)
      modifies `latency, `ttfb, `ok, `bad, `errors, `consecutiveErrors, `aborted, `connected
      modifies `issued, `reconnects, `connect, stall
      ensures Snap() == AfterIteration(old(Snap()), due, w)
    {
      var written := Send(due, w);
      if written {
        Receive(due, w);
      }
    }

    /** Runs until every request is issued, a stop is seen, the schedule is exhausted, or too many
        exchanges in a row have failed. heads is how many reset checks ran. */
    method Run(ws: seq<World>) returns (heads: nat)
      requires Accepted(config) && Snap() == Initial(firstConnectNs)
      modifies this, stall
      ensures Ended(Snap(), config, ws, heads)
    {
      hide LoopInv, Accepted, DueAt, AfterHead, AfterIteration, Ended;
      NoneYet(config, ws, firstConnectNs);
      var i := 0;
      while i < |ws| && !aborted
        invariant 0 <= i <= |ws| && (stall == old(stall) || fresh(stall))
        invariant LoopInv(Snap(), config, ws, i, i)
      {
        var w := ws[i];
        HeadKeeps(Snap(), config, ws, i);
        Head(w);
        if w.stop || i > MaxIndex(config) {
          StoppedEarly(Snap(), config, ws, i);
          return i + 1;
        }
        IterationKeeps(Snap(), config, ws, i);
        Drive(DueAt(config, i), w);
        i := i + 1;
      }
      RanOut(Snap(), config, ws, i);
      return i;
    }
  }

  function Initial(connectNs: nat): Snapshot {
    Snapshot(FRESH, FRESH, FRESH, None, 0, 0, 0, 0, 0, 0, false, 0, true, 0, RecordNs(FRESH, connectNs), connectNs)
  }

  /** Nothing ended the run before request n. */
  predicate KeptGoing(c: Config, ws: seq<World>, n: nat)
    requires n <= |ws|
  {
    forall i :: 0 <= i < n ==>
      !ws[i].stop && i <= MaxIndex(c) && Streak(ws, i) < MAX_CONSECUTIVE_ERRORS
  }

  /** After n exchanges and h reset checks. */
  predicate LoopInv(s: Snapshot, c: Config, ws: seq<World>, n: nat, h: nat) {
    && Accepted(c) && n <= h <= |ws| && h <= n + 1
    && KeptGoing(c, ws, n)
    && Counted(s, ws, n)
    && Recorded(s, c, ws, h, n)
    && Acknowledged(s, c, ws, h)
  }

  /** What a finished run looks like: it stopped after the hundredth failure in a row, or with every
      request issued, or at a stop flag or the end of the schedule. */
  predicate Ended(s: Snapshot, c: Config, ws: seq<World>, h: nat) {
    && LoopInv(s, c, ws, s.issued, h)
    && (h == s.issued + 1 <==> !s.aborted && s.issued < |ws|)
    && (h == s.issued + 1 ==> ws[s.issued].stop || s.issued > MaxIndex(c))
  }

  lemma NoneYet(c: Config, ws: seq<World>, connectNs: nat)
    requires Accepted(c)
    ensures LoopInv(Initial(connectNs), c, ws, 0, 0)
  {
    RecordSnoc([], connectNs);
    assert [] + [connectNs] == [connectNs] && [connectNs] + [] == [connectNs];
    hide RecordNs;
  }

  lemma HeadKeeps(s: Snapshot, c: Config, ws: seq<World>, n: nat)
    requires LoopInv(s, c, ws, n, n) && n < |ws|
    ensures LoopInv(AfterHead(s, ws[n]), c, ws, n, n + 1)
    ensures AfterHead(s, ws[n]).aborted == s.aborted
  {
    HeadSamples(s, c, ws, n);
    hide Recorded, Acknowledged, Since, Count, Streak, Connected;
  }

  lemma IterationGoesOn(s: Snapshot, c: Config, ws: seq<World>, n: nat)
    requires n < |ws| && KeptGoing(c, ws, n) && Counted(s, ws, n) && !s.aborted
    requires !ws[n].stop && n <= MaxIndex(c)
    ensures KeptGoing(c, ws, n + 1) && s.connected == Connected(ws, n)
  {
  }

  lemma IterationKeeps(s: Snapshot, c: Config, ws: seq<World>, n: nat)
    requires LoopInv(s, c, ws, n, n + 1) && !s.aborted && !ws[n].stop && n <= MaxIndex(c)
    ensures LoopInv(AfterIteration(s, DueAt(c, n), ws[n]), c, ws, n + 1, n + 1)
  {
    hide Counted, HoldsLatencies, HoldsStalls, HoldsConnects, KeptGoing;
    hide AfterIteration, Since, DueAt, Acked, Discarded, MaxIndex;
    IterationGoesOn(s, c, ws, n);
    IterationCounts(s, ws, n, DueAt(c, n));
    IterationLatencies(s, c, ws, Since(ws, n + 1), n);
    IterationStalls(s, c, ws, Since(ws, n + 1), n);
    IterationConnects(s, ws, n + 1, n, DueAt(c, n));
    IterationFields(s, DueAt(c, n), ws[n]);
  }

  lemma StoppedEarly(s: Snapshot, c: Config, ws: seq<World>, n: nat)
    requires LoopInv(s, c, ws, n, n + 1) && !s.aborted && (ws[n].stop || n > MaxIndex(c))
    ensures Ended(s, c, ws, n + 1)
  {
  }

  lemma RanOut(s: Snapshot, c: Config, ws: seq<World>, n: nat)
    requires LoopInv(s, c, ws, n, n) && (n == |ws| || s.aborted)
    ensures Ended(s, c, ws, n)
  {
  }

  // ----- what holds at every loop head, and so of every finished run

  /** A response that ends the connection is never a good one. */
  predicate Plausible(ws: seq<World>) {
    forall i :: 0 <= i < |ws| && ws[i].exchange.Completed? && ws[i].exchange.needsReconnect
      ==> !ws[i].exchange.ok
  }

  lemma {:induction false} CountsAddUp(ws: seq<World>, n: nat)
    requires n <= |ws|
    ensures Count(IsOk, ws, 0, n) + Count(IsBad, ws, 0, n) + Count(IsError, ws, 0, n) == n
  {
    if n > 0 { CountsAddUp(ws, n - 1); }
  }

  lemma {:induction false} ReconnectsAreCaused(ws: seq<World>, n: nat)
    requires n <= |ws| && Plausible(ws)
    ensures Count(IsReconnect, ws, 0, n) + (if Connected(ws, n) then 0 else 1)
         <= Count(IsError, ws, 0, n) + Count(IsBad, ws, 0, n)
  {
    if n > 0 {
      ReconnectsAreCaused(ws, n - 1);
      NextCounts(ws, n - 1);
      hide Count, Connected, Ev;
    }
  }

  /** The k exchanges before request n all failed. */
  predicate AllFailed(ws: seq<World>, n: nat, k: nat)
    requires n <= |ws|
  {
    k <= n && forall j :: n - k <= j < n ==> IsError(Ev(ws, j))
  }

  lemma {:induction false} StreakMeans(ws: seq<World>, n: nat, k: nat)
    requires n <= |ws|
    ensures Streak(ws, n) >= k <==> AllFailed(ws, n, k)
  {
    if n > 0 && k > 0 {
      StreakMeans(ws, n - 1, k - 1);
      if IsError(Ev(ws, n - 1)) {
        hide Ev;
        assert AllFailed(ws, n, k) <==> AllFailed(ws, n - 1, k - 1);
      } else {
        assert !AllFailed(ws, n, k);
      }
    }
  }

  lemma {:induction false} SampleCounts(c: Config, ws: seq<World>, a: nat, n: nat)
    requires Accepted(c) && a <= n <= |ws|
    ensures |Latencies(c, ws, a, n)| == |Ttfbs(c, ws, a, n)| == Count(IsAnswered, ws, a, n)
    ensures |Stalls(c, ws, a, n)| == Count(IsWritten, ws, a, n)
    decreases n - a
  {
    if a < n { SampleCounts(c, ws, a, n - 1); }
  }

  lemma {:induction false} ReconnectCounts(ws: seq<World>, a: nat, n: nat)
    requires a <= n <= |ws|
    ensures |Reconnects(ws, a, n)| == Count(IsReconnect, ws, a, n)
    decreases n - a
  {
    if a < n { ReconnectCounts(ws, a, n - 1); }
  }

  /** After any number of iterations, every issued request is accounted for once. */
  lemma TotalsOfRun(s: Snapshot, c: Config, ws: seq<World>, n: nat, h: nat)
    requires LoopInv(s, c, ws, n, h)
    ensures s.issued == n == s.ok + s.bad + s.errors
  {
    CountsAddUp(ws, n);
    hide Count, Recorded, Acknowledged;
  }

  lemma ReconnectsOfRun(s: Snapshot, c: Config, ws: seq<World>, n: nat, h: nat)
    requires LoopInv(s, c, ws, n, h) && Plausible(ws)
    ensures s.reconnects <= s.errors + s.bad
  {
    ReconnectsAreCaused(ws, n);
    hide Count, Recorded, Acknowledged;
  }

  /** At every loop head the probe is aborted exactly when its last hundred exchanges all failed, and
      at no earlier point had a hundred exchanges in a row failed. */
  lemma AbortMeansHundredFailures(s: Snapshot, c: Config, ws: seq<World>, n: nat, h: nat)
    requires LoopInv(s, c, ws, n, h)
    ensures s.aborted <==> AllFailed(ws, n, 100)
    ensures forall k :: 0 <= k < n ==> !AllFailed(ws, k, 100)
  {
    StreakMeans(ws, n, 100);
    hide AllFailed, Streak, Recorded, Acknowledged, Count;
    forall k | 0 <= k < n
      ensures !AllFailed(ws, k, 100)
    {
      StreakMeans(ws, k, 100);
    }
  }

  /** Since the last recorder swap, each completed exchange left one latency and one first-byte
      sample, each successful write closed one stall interval, and each reconnect left one connect
      sample; the first connection counts until the first swap. */
  lemma SamplesOfRun(s: Snapshot, c: Config, ws: seq<World>, n: nat, h: nat)
    requires LoopInv(s, c, ws, n, h)
    ensures var a := Since(ws, h);
      && a <= n
      && |s.latency.samples| + s.latency.outOfRange == Count(IsAnswered, ws, a, n)
      && |s.ttfb.samples| + s.ttfb.outOfRange == Count(IsAnswered, ws, a, n)
      && |s.closed.samples| + s.closed.outOfRange == Count(IsWritten, ws, a, n)
      && |s.connect.samples| + s.connect.outOfRange
         == Count(IsReconnect, ws, a, n) + (if NeverSwapped(ws, h) then 1 else 0)
  {
    var a := Since(ws, h);
    SampleCounts(c, ws, a, n);
    ReconnectCounts(ws, a, n);
    SamplesConserved(Latencies(c, ws, a, n));
    SamplesConserved(Ttfbs(c, ws, a, n));
    SamplesConserved(Stalls(c, ws, a, n));
    SamplesConserved(Connects(s.firstConnectNs, ws, h, n));
    hide Count, RecordAll, Latencies, Ttfbs, Stalls, Reconnects, Since, NeverSwapped, Counted, KeptGoing, Acknowledged;
  }

  lemma IssuedInTime(s: Snapshot, c: Config, ws: seq<World>, n: nat, h: nat)
    requires LoopInv(s, c, ws, n, h)
    ensures n <= |ws| && forall i :: 0 <= i < n ==> !ws[i].stop && i <= MaxIndex(c)
  {
    assert KeptGoing(c, ws, n);
    hide Recorded, Acknowledged, Counted, Streak, MaxIndex;
  }

  /** A run that has ended was not cut short: it aborted, saw a stop, exhausted the schedule, or issued
      every request; and no request was issued at or after such a reason. */
  lemma WhyItEnded(s: Snapshot, c: Config, ws: seq<World>, h: nat)
    requires Ended(s, c, ws, h)
    ensures || AllFailed(ws, s.issued, 100)
            || s.issued == |ws|
            || (s.issued < |ws| && (ws[s.issued].stop || s.issued > MaxIndex(c)))
    ensures s.issued <= |ws| && forall i :: 0 <= i < s.issued ==>
      !ws[i].stop && i <= MaxIndex(c) && !AllFailed(ws, i, 100)
  {
    IssuedInTime(s, c, ws, s.issued, h);
    AbortMeansHundredFailures(s, c, ws, s.issued, h);
    hide LoopInv, AllFailed;
  }
}
