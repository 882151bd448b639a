/** What the probe's recorders hold at every loop head, read off the due times of the schedule and the
    instants the network reported. */
module ProbeSamples {
  import opened Arith
  import opened OpenLoop
  import opened ProbeLoop
  import opened Recorders
  import opened Wrappers

  datatype Measure = Completion | FirstByte | Stall | Connect

  /** Iteration i takes the measure. */
  predicate Takes(m: Measure, ws: seq<World>, i: nat) {
    i < |ws| && match m
      case Completion => Ev(ws, i).exchange.Completed?
      case FirstByte => Ev(ws, i).exchange.Completed?
      case Stall => Ev(ws, i).written
      case Connect => Ev(ws, i).reconnected
  }

  /** What it measures: from the due time of request i to the end or the first byte of its answer, from
      the due time of the oldest request then waiting to the write of request i, or a connection's setup.
      The run of requests looked at starts at a. */
  function Value(m: Measure, c: Config, ws: seq<World>, a: nat, i: nat): int
    requires Accepted(c)
  {
    if a > i || !Takes(m, ws, i) then 0
    else match m
      case Completion => Ev(ws, i).exchange.completionNs - Due(c, i)
      case FirstByte => Ev(ws, i).exchange.ttfbNs - Due(c, i)
      case Stall => ws[i].sendNow - Due(c, Waiting(ws, a, i))
      case Connect => ws[i].connectNs
  }

  predicate Increasing(s: seq<nat>) { forall j, k :: 0 <= j < k < |s| ==> s[j] < s[k] }

  /** The samples are, in order, the measures taken in iterations a to n - 1 that are at most a minute,
      each at least one nanosecond; kept says whose they are. */
  ghost predicate Holds(samples: seq<nat>, kept: seq<nat>, m: Measure, c: Config, ws: seq<World>, a: nat, n: nat)
    requires Accepted(c)
  {
    && Increasing(kept) && |samples| == |kept|
    && (forall i: nat :: i in kept <==> a <= i < n && Takes(m, ws, i) && Value(m, c, ws, a, i) <= 60_000_000_000)
    && (forall k :: 0 <= k < |kept| ==> samples[k] == Max(Value(m, c, ws, a, kept[k]), 1))
  }

  /** The values a recorder is given for a measure. */
  function Given(m: Measure, c: Config, ws: seq<World>, a: nat, n: nat): seq<nat>
    requires Accepted(c) && a <= n <= |ws|
  {
    match m
    case Completion => Latencies(c, ws, a, n)
    case FirstByte => Ttfbs(c, ws, a, n)
    case Stall => Stalls(c, ws, a, n)
    case Connect => Reconnects(ws, a, n)
  }

  lemma NextGiven(m: Measure, c: Config, ws: seq<World>, a: nat, n: nat)
    requires Accepted(c) && a <= n < |ws|
    ensures Given(m, c, ws, a, n + 1)
         == if Takes(m, ws, n) then Given(m, c, ws, a, n) + [Max(Value(m, c, ws, a, n), 0)] else Given(m, c, ws, a, n)
  {
    hide Ev, Waiting;
    var before := Given(m, c, ws, a, n);
    assert before + [] == before;
  }

  lemma IncreasingSnoc(s: seq<nat>, t: nat)
    requires Increasing(s) && forall i :: i in s ==> i < t
    ensures Increasing(s + [t])
  {
    assert forall k :: 0 <= k < |s| ==> s[k] in s;
  }

  lemma HoldsSkip(samples: seq<nat>, kept: seq<nat>, m: Measure, c: Config, ws: seq<World>, a: nat, n: nat)
    requires Accepted(c) && a <= n < |ws| && Holds(samples, kept, m, c, ws, a, n)
    requires !(Takes(m, ws, n) && Value(m, c, ws, a, n) <= 60_000_000_000)
    ensures Holds(samples, kept, m, c, ws, a, n + 1)
  {
    hide Takes, Value, Accepted, Increasing;
  }

  lemma HoldsAdd(samples: seq<nat>, kept: seq<nat>, m: Measure, c: Config, ws: seq<World>, a: nat, n: nat)
    requires Accepted(c) && a <= n < |ws| && Holds(samples, kept, m, c, ws, a, n)
    requires Takes(m, ws, n) && Value(m, c, ws, a, n) <= 60_000_000_000
    ensures Holds(samples + [Max(Value(m, c, ws, a, n), 1)], kept + [n], m, c, ws, a, n + 1)
  {
    hide Takes, Value, Accepted, Increasing, Max;
    IncreasingSnoc(kept, n);
  }

  lemma RecordedWithin(r: Recorder, v: int)
    ensures RecordNs(r, Max(v, 0)).samples == if v <= 60_000_000_000 then r.samples + [Max(v, 1)] else r.samples
  {
  }

  lemma {:induction false} HeldInOrder(m: Measure, c: Config, ws: seq<World>, a: nat, n: nat)
    returns (kept: seq<nat>)
    requires Accepted(c) && a <= n <= |ws|
    ensures Holds(RecordAll(Given(m, c, ws, a, n)).samples, kept, m, c, ws, a, n)
    decreases n - a
  {
    hide Given, Takes, Value, Holds, RecordNs, RecordAll, Accepted;
    if a == n {
      kept := [];
      NoneHeld(m, c, ws, n);
    } else {
      var before := Given(m, c, ws, a, n - 1);
      var r, v := RecordAll(before), Value(m, c, ws, a, n - 1);
      var sofar := HeldInOrder(m, c, ws, a, n - 1);
      NextGiven(m, c, ws, a, n - 1);
      RecordSnoc(before, Max(v, 0));
      RecordedWithin(r, v);
      if Takes(m, ws, n - 1) && v <= 60_000_000_000 {
        HoldsAdd(r.samples, sofar, m, c, ws, a, n - 1);
        kept := sofar + [n - 1];
      } else {
        HoldsSkip(r.samples, sofar, m, c, ws, a, n - 1);
        kept := sofar;
      }
    }
  }

  lemma NoneHeld(m: Measure, c: Config, ws: seq<World>, n: nat)
    requires Accepted(c) && n <= |ws|
    ensures Holds(RecordAll(Given(m, c, ws, n, n)).samples, [], m, c, ws, n, n)
  {
    assert Given(m, c, ws, n, n) == [];
    hide Given, Takes, Value, Accepted;
  }

  /** a is where the current recorders began: the latest head that swapped them, or the start of the run. */
  predicate BeganAt(ws: seq<World>, h: nat, a: nat)
    requires h <= |ws|
  {
    && a <= h
    && (a == 0 || (a < h && Swaps(ws, a)))
    && forall i :: a < i < h ==> !Swaps(ws, i)
  }

  lemma {:induction false} SinceBegan(ws: seq<World>, h: nat)
    requires h <= |ws|
    ensures BeganAt(ws, h, Since(ws, h))
  {
    if h > 0 { SinceBegan(ws, h - 1); }
  }

  lemma {:induction false} NeverSwappedMeans(ws: seq<World>, h: nat)
    requires h <= |ws|
    ensures NeverSwapped(ws, h) <==> forall i :: 0 <= i < h ==> !Swaps(ws, i)
  {
    if h > 0 {
      NeverSwappedMeans(ws, h - 1);
      if Swaps(ws, h - 1) { assert exists i :: 0 <= i < h && Swaps(ws, i); }
    }
  }

  /** Of the requests from a on, k is the oldest not written when request i is due. */
  predicate OldestWaiting(ws: seq<World>, a: nat, i: nat, k: nat)
    requires a <= i <= |ws|
  {
    && a <= k <= i
    && (k == a || Takes(Stall, ws, k - 1))
    && forall j :: k <= j < i ==> !Takes(Stall, ws, j)
  }

  lemma {:induction false} WaitingIsOldest(ws: seq<World>, a: nat, i: nat)
    requires a <= i <= |ws|
    ensures OldestWaiting(ws, a, i, Waiting(ws, a, i))
    decreases i - a
  {
    if a < i {
      WaitingIsOldest(ws, a, i - 1);
      hide Ev;
    }
  }

  /** At every loop head, latencies and first bytes are measured from the due times of the requests
      answered since the recorders began, in order. */
  lemma LatencyOfRun(s: Snapshot, c: Config, ws: seq<World>, n: nat, h: nat)
    returns (a: nat, kept: seq<nat>, first: seq<nat>)
    requires Accepted(c) && LoopInv(s, c, ws, n, h)
    ensures h <= |ws| && BeganAt(ws, h, a)
    ensures Holds(s.latency.samples, kept, Completion, c, ws, a, n)
    ensures Holds(s.ttfb.samples, first, FirstByte, c, ws, a, n)
  {
    a := Since(ws, h);
    SinceBegan(ws, h);
    hide Since, RecordAll, Holds, BeganAt, Accepted, Latencies, Ttfbs;
    hide Counted, KeptGoing, Acknowledged, HoldsStalls, HoldsConnects;
    kept := HeldInOrder(Completion, c, ws, a, n);
    first := HeldInOrder(FirstByte, c, ws, a, n);
  }

  /** At every loop head, each write since the recorders began closed an interval opened by the due time
      of the oldest request then waiting, and an interval is open exactly while one is waiting. */
  lemma StallsOfRun(s: Snapshot, c: Config, ws: seq<World>, n: nat, h: nat)
    returns (a: nat, kept: seq<nat>, k: nat)
    requires Accepted(c) && LoopInv(s, c, ws, n, h)
    ensures a <= n <= h <= |ws| && BeganAt(ws, h, a)
    ensures Holds(s.closed.samples, kept, Stall, c, ws, a, n)
    ensures OldestWaiting(ws, a, n, k) && s.blocked == if k == n then None else Some(Due(c, k))
  {
    a := Since(ws, h);
    k := Waiting(ws, a, n);
    SinceBegan(ws, h);
    WaitingIsOldest(ws, a, n);
    hide Since, RecordAll, Holds, BeganAt, Accepted, Stalls, Due, Waiting, OldestWaiting;
    hide Counted, KeptGoing, Acknowledged, HoldsLatencies, HoldsConnects;
    kept := HeldInOrder(Stall, c, ws, a, n);
  }

  /** At every loop head the connect samples are those of the reconnects since the recorders began, after
      the first connection's if they were never swapped. */
  lemma ConnectsOfRun(s: Snapshot, c: Config, ws: seq<World>, n: nat, h: nat)
    returns (a: nat, more: seq<nat>, kept: seq<nat>)
    requires Accepted(c) && LoopInv(s, c, ws, n, h)
    ensures h <= |ws| && BeganAt(ws, h, a) && Holds(more, kept, Connect, c, ws, a, n)
    ensures s.connect.samples
         == (if (exists i :: 0 <= i < h && Swaps(ws, i)) || s.firstConnectNs > 60_000_000_000 then []
             else [Max(s.firstConnectNs, 1)]) + more
  {
    a := Since(ws, h);
    SinceBegan(ws, h);
    ConnectsSplit(s.firstConnectNs, ws, h, n);
    hide Since, RecordAll, Holds, BeganAt, Accepted, Reconnects, Connects, Swaps, Max;
    hide Counted, KeptGoing, Acknowledged, HoldsLatencies, HoldsStalls;
    kept := HeldInOrder(Connect, c, ws, a, n);
    more := RecordAll(Reconnects(ws, a, n)).samples;
  }

  lemma ConnectsSplit(first: nat, ws: seq<World>, h: nat, n: nat)
    requires h <= |ws| && Since(ws, h) <= n <= |ws|
    ensures RecordAll(Connects(first, ws, h, n)).samples
         == (if (exists i :: 0 <= i < h && Swaps(ws, i)) || first > 60_000_000_000 then []
             else [Max(first, 1)]) + RecordAll(Reconnects(ws, Since(ws, h), n)).samples
  {
    var opening := if NeverSwapped(ws, h) then [first] else [];
    NeverSwappedMeans(ws, h);
    FirstRecorded(first);
    hide RecordAll, Since, Reconnects, NeverSwapped, Swaps, Max;
    MergeOfRecorded(opening, Reconnects(ws, Since(ws, h), n));
  }

  lemma FirstRecorded(ns: nat)
    ensures RecordAll([ns]).samples == if ns > 60_000_000_000 then [] else [Max(ns, 1)]
    ensures RecordAll([]).samples == []
  {
    RecordSnoc([], ns);
    assert [] + [ns] == [ns];
  }
}
