/** Swapping the probe's recorders from another thread: a request counter, an acknowledged
    generation and a discard count, all atomics, with no lock. */
module ResetHandshake {
  const RESET_POLL_MAX_ITERATIONS: int := 2000

  datatype Sample = Sample(at: nat, inRange: bool)

  /** Where the probe thread is. */
  datatype At = Working | Saw(gen: nat) | Counted(gen: nat) | Swapped(gen: nat)

  /** Where a call of reset_recorders is; gen is the generation it asked for. */
  datatype Caller =
    | Ready
    | Polling(gen: nat, polls: nat)
    | Acknowledged(gen: nat)
    | Returned(gen: nat, count: nat)
    | TimedOut(gen: nat)

  /** A swap of the recorders: the generation it answers and the in-range samples it threw away. */
  datatype Clearing = Clearing(gen: nat, dropped: nat)

  /** clock counts accesses; requests[g - 1] is when generation g was asked for; cleared lists the
      swaps. The last three are history, not program state. */
  datatype State = State(
    requested: nat, acked: nat, discarded: nat,
    ack: nat, at: At, samples: seq<Sample>,
    callers: seq<Caller>,
    clock: nat, requests: seq<nat>, cleared: seq<Clearing>)

  datatype Step =
    | Request(r: nat)
    | Poll(r: nat)
    | Fetch(r: nat)
    | LoadRequested
    | StoreDiscarded
    | Swap(allocates: bool)
    | StoreAcked
    | Record(inRange: bool)

  function InRange(samples: seq<Sample>): nat {
    if samples == [] then 0 else InRange(samples[1..]) + (if samples[0].inRange then 1 else 0)
  }

  predicate Enabled(s: State, a: Step) {
    match a
    case Request(r) => r < |s.callers| && !s.callers[r].Polling? && !s.callers[r].Acknowledged?
    case Poll(r) => r < |s.callers| && s.callers[r].Polling?
    case Fetch(r) => r < |s.callers| && s.callers[r].Acknowledged?
    case LoadRequested => s.at.Working?
    case StoreDiscarded => s.at.Saw?
    case Swap(_) => s.at.Counted?
    case StoreAcked => s.at.Swapped?
    case Record(_) => s.at.Working?
  }

  function Set(s: State, r: nat, c: Caller): State
    requires r < |s.callers|
  {
    s.(callers := s.callers[r := c])
  }

  function Effect(s: State, a: Step): State
    requires Enabled(s, a)
  {
    match a
    case Request(r) =>
      Set(s.(requested := s.requested + 1, requests := s.requests + [s.clock]), r, Polling(s.requested + 1, 0))
    case Poll(r) =>
      var Polling(gen, polls) := s.callers[r];
      Set(s, r, if s.acked >= gen then Acknowledged(gen)
                else if polls + 1 >= RESET_POLL_MAX_ITERATIONS then TimedOut(gen)
                else Polling(gen, polls + 1))
    case Fetch(r) => Set(s, r, Returned(s.callers[r].gen, s.discarded))
    case LoadRequested => if s.requested != s.ack then s.(at := Saw(s.requested)) else s
    case StoreDiscarded => s.(discarded := InRange(s.samples), at := Counted(s.at.gen))
    case Swap(allocates) =>
      if allocates
      then s.(samples := [], ack := s.at.gen, at := Swapped(s.at.gen),
              cleared := s.cleared + [Clearing(s.at.gen, InRange(s.samples))])
      else s.(at := Working)
    case StoreAcked => s.(acked := s.at.gen, at := Working)
    case Record(inRange) => s.(samples := s.samples + [Sample(s.clock, inRange)])
  }

  function Apply(s: State, a: Step): State
    requires Enabled(s, a)
  {
    Effect(s, a).(clock := s.clock + 1)
  }

  // ----- the invariant

  predicate Ordered(s: State) {
    && s.acked <= s.ack <= s.requested == |s.requests|
    && match s.at
       case Working => s.acked == s.ack
       case Saw(g) => s.acked == s.ack < g <= s.requested
       case Counted(g) => s.acked == s.ack < g <= s.requested && s.discarded == InRange(s.samples)
       case Swapped(g) => s.ack == g
  }

  predicate Timed(s: State) {
    && (forall g :: 0 <= g < |s.requests| ==> s.requests[g] < s.clock)
    && (forall g, k :: 0 <= g < k < |s.requests| ==> s.requests[g] < s.requests[k])
    && (forall i :: 0 <= i < |s.samples| ==> s.samples[i].at < s.clock)
  }

  /** Every held sample was recorded after the acknowledged generation was asked for. */
  predicate SamplesAreNew(s: State)
    requires s.ack <= |s.requests|
  {
    s.ack > 0 ==> forall i :: 0 <= i < |s.samples| ==> s.samples[i].at > s.requests[s.ack - 1]
  }

  predicate CallerOk(s: State, c: Caller) {
    match c
    case Ready => true
    case Polling(gen, polls) => 1 <= gen <= s.requested && polls < RESET_POLL_MAX_ITERATIONS
    case Acknowledged(gen) => 1 <= gen <= s.acked
    case Returned(gen, _) => 1 <= gen <= s.acked
    case TimedOut(gen) => 1 <= gen <= s.requested
  }

  predicate CallersOk(s: State) {
    forall r :: 0 <= r < |s.callers| ==> CallerOk(s, s.callers[r])
  }

  /** Swaps answer ever later generations, the last of them the acknowledged one. */
  predicate ClearedInOrder(s: State) {
    && (s.cleared == [] <==> s.ack == 0)
    && (s.cleared != [] ==> s.cleared[|s.cleared| - 1].gen == s.ack)
    && forall i :: 0 <= i < |s.cleared| - 1 ==> s.cleared[i].gen < s.ack
  }

  /** With no request pending, the discard count is what the latest swap threw away. */
  predicate CountSettled(s: State) {
    s.requested == s.ack && s.cleared != [] ==> s.discarded == s.cleared[|s.cleared| - 1].dropped
  }

  predicate Inv(s: State) {
    Ordered(s) && Timed(s) && SamplesAreNew(s) && CallersOk(s) && ClearedInOrder(s) && CountSettled(s)
  }

  predicate Init(s: State) {
    && s.requested == s.acked == s.ack == s.discarded == 0 && s.cleared == [] && s.at.Working?
    && s.samples == [] && s.requests == []
    && forall r :: 0 <= r < |s.callers| ==> s.callers[r].Ready?
  }

  lemma StepOrdered(s: State, a: Step)
    requires Ordered(s) && Enabled(s, a)
    ensures Ordered(Apply(s, a))
  {
  }

  lemma StepTimed(s: State, a: Step)
    requires Timed(s) && Enabled(s, a)
    ensures Timed(Apply(s, a))
  {
  }

  lemma StepSamples(s: State, a: Step)
    requires Ordered(s) && Timed(s) && SamplesAreNew(s) && Enabled(s, a)
    ensures Ordered(Apply(s, a)) && SamplesAreNew(Apply(s, a))
  {
  }

  lemma StepCallers(s: State, a: Step)
    requires Ordered(s) && CallersOk(s) && Enabled(s, a)
    ensures CallersOk(Apply(s, a))
  {
    var s' := Apply(s, a);
    forall r | 0 <= r < |s'.callers|
      ensures CallerOk(s', s'.callers[r])
    {
      assert CallerOk(s, s.callers[r]);
    }
  }

  lemma StepCleared(s: State, a: Step)
    requires Ordered(s) && ClearedInOrder(s) && Enabled(s, a)
    ensures ClearedInOrder(Apply(s, a))
  {
  }

  lemma StepCount(s: State, a: Step)
    requires Ordered(s) && CountSettled(s) && Enabled(s, a)
    ensures CountSettled(Apply(s, a))
  {
  }

  lemma StepKeepsInv(s: State, a: Step)
    requires Inv(s) && Enabled(s, a)
    ensures Inv(Apply(s, a))
  {
    StepOrdered(s, a);
    StepTimed(s, a);
    StepSamples(s, a);
    StepCallers(s, a);
    StepCleared(s, a);
    StepCount(s, a);
    hide Ordered, Timed, SamplesAreNew, CallersOk, ClearedInOrder, CountSettled, Apply;
  }

  // ----- every interleaving

  predicate Legal(s: State, run: seq<Step>)
    decreases |run|
  {
    run == [] || (Enabled(s, run[0]) && Legal(Apply(s, run[0]), run[1..]))
  }

  function Exec(s: State, run: seq<Step>): (r: State)
    requires Legal(s, run)
    decreases |run|
  {
    if run == [] then s else Exec(Apply(s, run[0]), run[1..])
  }

  lemma {:induction false} ExecKeepsInv(s: State, run: seq<Step>)
    requires Inv(s) && Legal(s, run)
    ensures Inv(Exec(s, run))
    decreases |run|
  {
    hide Inv, Enabled, Apply;
    if run != [] {
      StepKeepsInv(s, run[0]);
      ExecKeepsInv(Apply(s, run[0]), run[1..]);
    }
  }

  /** Acknowledgements never run ahead of requests; and once a call has returned, every sample the
      recorders hold was recorded after that call's request. */
  lemma WarmupIsGone(s: State, run: seq<Step>, r: nat)
    requires Init(s) && Legal(s, run)
    ensures var e := Exec(s, run);
      && e.acked <= e.requested == |e.requests|
      && (r < |e.callers| && e.callers[r].Returned? ==>
            && 1 <= e.callers[r].gen <= e.requested
            && forall i :: 0 <= i < |e.samples| ==> e.samples[i].at > e.requests[e.callers[r].gen - 1])
  {
    assert Inv(s);
    ExecKeepsInv(s, run);
    var e := Exec(s, run);
    if r < |e.callers| && e.callers[r].Returned? {
      assert CallerOk(e, e.callers[r]);
    }
  }

  // ----- the returned count

  /** What the swap that answered generation gen threw away: the first one for it or a later one. */
  function DroppedFor(cleared: seq<Clearing>, gen: nat): nat {
    if cleared == [] then 0
    else if cleared[0].gen >= gen then cleared[0].dropped
    else DroppedFor(cleared[1..], gen)
  }

  lemma {:induction false} LastAnswers(cleared: seq<Clearing>, gen: nat)
    requires cleared != [] && cleared[|cleared| - 1].gen >= gen
    requires forall i :: 0 <= i < |cleared| - 1 ==> cleared[i].gen < gen
    ensures DroppedFor(cleared, gen) == cleared[|cleared| - 1].dropped
  {
    if |cleared| > 1 {
      assert cleared[0].gen < gen;
      LastAnswers(cleared[1..], gen);
    }
  }

  /** The call is about to report exactly what its own swap threw away. */
  predicate FetchIsExact(s: State, r: nat)
    requires Enabled(s, Fetch(r))
  {
    var gen := s.callers[r].gen;
    Apply(s, Fetch(r)).callers[r] == Returned(gen, DroppedFor(s.cleared, gen))
  }

  /** A call that is still the latest to have asked returns exactly what its swap threw away. */
  lemma CountIsExact(s: State, run: seq<Step>, r: nat)
    requires Init(s) && Legal(s, run)
    requires var e := Exec(s, run);
      Enabled(e, Fetch(r)) && e.callers[r].gen == e.requested
    ensures Exec(s, run).ack == Exec(s, run).callers[r].gen && FetchIsExact(Exec(s, run), r)
  {
    assert Inv(s);
    ExecKeepsInv(s, run);
    var e := Exec(s, run);
    assert CallerOk(e, e.callers[r]);
    LastAnswers(e.cleared, e.ack);
  }

  predicate Pending(c: Caller) { c.Polling? || c.Acknowledged? }

  /** No call starts while another one is under way. */
  predicate Serial(s: State, run: seq<Step>)
    requires Legal(s, run)
    decreases |run|
  {
    run != [] ==>
      && (run[0].Request? ==> forall r :: 0 <= r < |s.callers| ==> !Pending(s.callers[r]))
      && Serial(Apply(s, run[0]), run[1..])
  }

  predicate PendingIsNewest(s: State) {
    forall r :: 0 <= r < |s.callers| && Pending(s.callers[r]) ==> s.callers[r].gen == s.requested
  }

  lemma StepNewest(s: State, a: Step)
    requires PendingIsNewest(s) && Enabled(s, a)
    requires a.Request? ==> forall r :: 0 <= r < |s.callers| ==> !Pending(s.callers[r])
    ensures PendingIsNewest(Apply(s, a))
  {
  }

  lemma {:induction false} SerialIsNewest(s: State, run: seq<Step>)
    requires Legal(s, run) && Serial(s, run) && PendingIsNewest(s)
    ensures PendingIsNewest(Exec(s, run))
    decreases |run|
  {
    if run != [] {
      StepNewest(s, run[0]);
      hide PendingIsNewest, Enabled, Apply;
      SerialIsNewest(Apply(s, run[0]), run[1..]);
    }
  }

  /** When calls do not overlap, every one of them returns the right count, from any number of
      callers and after any number of timed-out calls. */
  lemma SerialCallsAreExact(s: State, run: seq<Step>, r: nat)
    requires Init(s) && Legal(s, run) && Serial(s, run) && Enabled(Exec(s, run), Fetch(r))
    ensures FetchIsExact(Exec(s, run), r)
  {
    SerialIsNewest(s, run);
    assert Pending(Exec(s, run).callers[r]);
    hide Legal, Exec, Serial;
    CountIsExact(s, run, r);
  }

  lemma {:induction false} OneCallerIsSerial(s: State, run: seq<Step>)
    requires Legal(s, run) && |s.callers| <= 1
    ensures Serial(s, run)
    decreases |run|
  {
    if run != [] { OneCallerIsSerial(Apply(s, run[0]), run[1..]); }
  }

  lemma ExecCons(s: State, a: Step, rest: seq<Step>)
    requires Enabled(s, a) && Legal(Apply(s, a), rest)
    ensures Legal(s, [a] + rest) && Exec(s, [a] + rest) == Exec(Apply(s, a), rest)
  {
    assert ([a] + rest)[1..] == rest;
  }

  function Idle(n: nat): seq<Caller> { seq(n, _ => Ready) }

  function Start(n: nat): State { State(0, 0, 0, 0, Working, [], Idle(n), 0, [], []) }

  /** After one in-range sample, a request by caller 0, the swap for it, and its acknowledgement. */
  function Midway(n: nat): State
    requires n >= 2
  {
    State(1, 1, 1, 1, Working, [], Idle(n)[0 := Polling(1, 0)], 6, [1], [Clearing(1, 1)])
  }

  const FIRST: seq<Step> := [Request(0)] + ([LoadRequested] + ([StoreDiscarded] + ([Swap(true)] + ([StoreAcked] + []))))

  const SECOND: seq<Step> := [Poll(0)] + ([Request(1)] + ([LoadRequested] + ([StoreDiscarded] + [])))

  lemma FirstCall(n: nat, s: State)
    requires n >= 2 && s == Apply(Start(n), Record(true))
    ensures Legal(s, FIRST) && Exec(s, FIRST) == Midway(n)
  {
    var one := [Sample(0, true)];
    assert one[1..] == [] && InRange(one) == 1;
    var s1 := Apply(s, Request(0));
    var s2 := Apply(s1, LoadRequested);
    var s3 := Apply(s2, StoreDiscarded);
    var s4 := Apply(s3, Swap(true));
    assert s.samples == one && s4.requests == [1] && s4.cleared == [Clearing(1, 1)];
    assert s4.callers == Idle(n)[0 := Polling(1, 0)];
    assert s4 == State(1, 0, 1, 1, Swapped(1), [], Idle(n)[0 := Polling(1, 0)], 5, [1], [Clearing(1, 1)]);
    ExecCons(s4, StoreAcked, []);
    hide Exec, Legal, Idle, InRange;
    ExecCons(s3, Swap(true), [StoreAcked] + []);
    ExecCons(s2, StoreDiscarded, [Swap(true)] + ([StoreAcked] + []));
    ExecCons(s1, LoadRequested, [StoreDiscarded] + ([Swap(true)] + ([StoreAcked] + [])));
    ExecCons(s, Request(0), [LoadRequested] + ([StoreDiscarded] + ([Swap(true)] + ([StoreAcked] + []))));
  }

  lemma SecondCall(n: nat)
    requires n >= 2
    ensures Legal(Midway(n), SECOND)
    ensures var e := Exec(Midway(n), SECOND);
      && Enabled(e, Fetch(0)) && e.callers[0].gen == 1
      && e.discarded == 0 && e.cleared == [Clearing(1, 1)]
  {
    var s1 := Apply(Midway(n), Poll(0));
    var s2 := Apply(s1, Request(1));
    var s3 := Apply(s2, LoadRequested);
    ExecCons(s3, StoreDiscarded, []);
    hide Exec, Legal;
    ExecCons(s2, LoadRequested, [StoreDiscarded] + []);
    ExecCons(s1, Request(1), [LoadRequested] + ([StoreDiscarded] + []));
    ExecCons(Midway(n), Poll(0), [Request(1)] + ([LoadRequested] + ([StoreDiscarded] + [])));
  }

  lemma {:induction false} ExecConcat(s: State, a: seq<Step>, b: seq<Step>)
    requires Legal(s, a) && Legal(Exec(s, a), b)
    ensures Legal(s, a + b) && Exec(s, a + b) == Exec(Exec(s, a), b)
    decreases |a|
  {
    hide Enabled, Apply;
    if a == [] {
      assert a + b == b;
    } else {
      assert (a + b)[1..] == a[1..] + b;
      ExecConcat(Apply(s, a[0]), a[1..], b);
    }
  }

  /** With a second call in between, the first one returns the second's count: its own swap dropped
      one sample and it is about to report none. */
  lemma OverlappingCallsMiscount(n: nat) returns (run: seq<Step>)
    requires n >= 2
    ensures Init(Start(n)) && |Start(n).callers| == n && Legal(Start(n), run)
    ensures var e := Exec(Start(n), run);
      && Enabled(e, Fetch(0)) && !FetchIsExact(e, 0)
      && Apply(e, Fetch(0)).callers[0] == Returned(1, 0) && DroppedFor(e.cleared, 1) == 1
  {
    var s := Apply(Start(n), Record(true));
    FirstCall(n, s);
    SecondCall(n);
    run := [Record(true)] + (FIRST + SECOND);
    hide Exec, Legal;
    ExecConcat(s, FIRST, SECOND);
    ExecCons(Start(n), Record(true), FIRST + SECOND);
  }

  /** Every call of every run returns the right count exactly when there is one caller. */
  lemma CountsAreExactFor(n: nat)
    ensures (forall s, run, r :: Init(s) && |s.callers| == n && Legal(s, run) && Enabled(Exec(s, run), Fetch(r))
               ==> FetchIsExact(Exec(s, run), r))
       <==> n <= 1
  {
    hide Init, Legal, Exec, FetchIsExact, Start;
    if n <= 1 {
      forall s, run, r | Init(s) && |s.callers| == n && Legal(s, run) && Enabled(Exec(s, run), Fetch(r))
        ensures FetchIsExact(Exec(s, run), r)
      {
        OneCallerIsSerial(s, run);
        SerialCallsAreExact(s, run, r);
      }
    } else {
      var run := OverlappingCallsMiscount(n);
      assert Enabled(Exec(Start(n), run), Fetch(0));
    }
  }

  // ----- counts and timeouts, over whole runs

  predicate IsRecord(a: Step) { a.Record? && a.inRange }

  predicate IsPoll(a: Step, r: nat) { a == Poll(r) }

  /** How many in-range samples a run records. */
  function Records(run: seq<Step>): nat {
    if run == [] then 0 else (if IsRecord(run[0]) then 1 else 0) + Records(run[1..])
  }

  /** How often a run has caller r poll. */
  function Polls(run: seq<Step>, r: nat): nat {
    if run == [] then 0 else (if IsPoll(run[0], r) then 1 else 0) + Polls(run[1..], r)
  }

  lemma {:induction false} InRangeSnoc(samples: seq<Sample>, x: Sample)
    ensures InRange(samples + [x]) == InRange(samples) + (if x.inRange then 1 else 0)
  {
    if samples == [] {
      assert samples + [x] == [x] && [x][1..] == [];
    } else {
      assert (samples + [x])[0] == samples[0] && (samples + [x])[1..] == samples[1..] + [x];
      InRangeSnoc(samples[1..], x);
    }
  }

  /** The number a swap would publish is the number of in-range samples recorded since the last one. */
  lemma {:induction false} CountsWhatWasRecorded(s: State, run: seq<Step>)
    requires Legal(s, run) && forall i :: 0 <= i < |run| ==> run[i] != Swap(true)
    ensures InRange(Exec(s, run).samples) == InRange(s.samples) + Records(run)
    decreases |run|
  {
    if run != [] {
      var a, s' := run[0], Apply(s, run[0]);
      assert a != Swap(true);
      if a.Record? { InRangeSnoc(s.samples, Sample(s.clock, a.inRange)); }
      assert InRange(s'.samples) == InRange(s.samples) + (if IsRecord(a) then 1 else 0);
      hide Apply, Enabled, InRange;
      CountsWhatWasRecorded(s', run[1..]);
    }
  }

  function Spent(c: Caller): nat { if c.Polling? then c.polls else 0 }

  lemma StepSpends(s: State, a: Step, r: nat)
    requires Enabled(s, a) && r < |s.callers| && !s.callers[r].TimedOut?
    ensures |Apply(s, a).callers| == |s.callers|
    ensures var c, c' := s.callers[r], Apply(s, a).callers[r];
      if c'.TimedOut? then IsPoll(a, r) && Spent(c) + 1 >= 2000
      else Spent(c') <= Spent(c) + (if IsPoll(a, r) then 1 else 0)
  {
  }

  /** A call times out only after 2000 polls of its own, in every interleaving. */
  lemma {:induction false} TimeoutTakesPolls(s: State, run: seq<Step>, r: nat)
    requires Legal(s, run) && r < |s.callers| && !s.callers[r].TimedOut?
    ensures |Exec(s, run).callers| == |s.callers|
    ensures Exec(s, run).callers[r].TimedOut? ==> Spent(s.callers[r]) + Polls(run, r) >= 2000
    decreases |run|
  {
    if run != [] {
      var a, s' := run[0], Apply(s, run[0]);
      StepSpends(s, a, r);
      hide Apply, Enabled, Spent, IsPoll;
      if s'.callers[r].TimedOut? {
        CallersStay(s', run[1..]);
      } else {
        TimeoutTakesPolls(s', run[1..], r);
      }
    }
  }

  lemma {:induction false} CallersStay(s: State, run: seq<Step>)
    requires Legal(s, run)
    ensures |Exec(s, run).callers| == |s.callers|
    decreases |run|
  {
    if run != [] {
      assert |Apply(s, run[0]).callers| == |s.callers|;
      hide Apply, Enabled;
      CallersStay(Apply(s, run[0]), run[1..]);
    }
  }

  function PollRun(r: nat, n: nat): seq<Step> { seq(n, _ => Poll(r)) }

  /** And 2000 polls without an answer are enough. */
  lemma {:induction false} UnansweredTimesOut(s: State, r: nat, gen: nat, polls: nat, n: nat)
    requires r < |s.callers| && s.callers[r] == Polling(gen, polls) && s.acked < gen
    requires polls < 2000 && polls + n <= 2000
    ensures Legal(s, PollRun(r, n)) && |Exec(s, PollRun(r, n)).callers| == |s.callers|
    ensures Exec(s, PollRun(r, n)).callers[r] == if polls + n < 2000 then Polling(gen, polls + n) else TimedOut(gen)
    decreases n
  {
    var run := PollRun(r, n);
    if n > 0 {
      assert run[0] == Poll(r) && run[1..] == PollRun(r, n - 1);
      var s' := Apply(s, Poll(r));
      if polls + 1 < 2000 {
        UnansweredTimesOut(s', r, gen, polls + 1, n - 1);
      } else {
        assert n == 1 && PollRun(r, 0) == [];
      }
    }
  }
}
