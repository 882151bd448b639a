/** The open-loop request schedule: due times from an absolute origin, and catch-up computed in
    closed form instead of by counting owed requests one at a time. */
module OpenLoop {
  import opened Arith
  import opened Divisors

  const NANOS: int := 1_000_000_000
  const MIN_RATE_HZ: int := 1
  const MAX_RATE_HZ: int := 50_000_000
  const MAX_BURST_CAP: int := 65_536

  datatype Config = Config(originNs: int, rateHz: int, burstCap: int)

  predicate Accepted(c: Config) {
    && 0 <= c.originNs <= U64_MAX
    && MIN_RATE_HZ <= c.rateHz <= MAX_RATE_HZ
    && 1 <= c.burstCap <= MAX_BURST_CAP
  }

  function MaxIndexFor(originNs: int, rateHz: int): int {
    Min((U64_MAX - originNs) * rateHz / NANOS, U64_MAX)
  }

  function MaxIndex(c: Config): int { MaxIndexFor(c.originNs, c.rateHz) }

  /** The due time of request i, as an unbounded integer. */
  function Due(c: Config, i: int): int
    requires c.rateHz > 0
  {
    c.originNs + i * NANOS / c.rateHz
  }

  datatype Release = Release(firstIndex: int, count: int, debt: int, nextWakeNs: int)

  datatype State = State(nextIndex: int, catchupBursts: int)

  // ----- the reference: walk the due times one request at a time

  /** How many requests from j on are due at now, found by counting. */
  function Owed(c: Config, j: int, now: int): (n: nat)
    requires c.rateHz > 0
    decreases MaxIndex(c) + 1 - j
  {
    if j > MaxIndex(c) || now < Due(c, j) then 0 else 1 + Owed(c, j + 1, now)
  }

  function ReferenceRelease(c: Config, s: State, now: int): (r: (State, Release))
    requires Accepted(c)
  {
    var debt := Owed(c, s.nextIndex, now);
    var count := Min(debt, c.burstCap);
    var next := s.nextIndex + count;
    var bursts := if debt > c.burstCap then Min(s.catchupBursts + 1, U64_MAX) else s.catchupBursts;
    var wake := if next > MaxIndex(c) then U64_MAX else Max(now, Due(c, next));
    (State(next, bursts), Release(s.nextIndex, count, debt, wake))
  }

  // ----- due times

  /** A due time is reached exactly when its index is within the closed-form entitlement. */
  lemma DueByIndex(c: Config, i: int, delta: int)
    requires Accepted(c) && 0 <= i && 0 <= delta
    ensures i * NANOS / c.rateHz <= delta <==> i <= ((delta + 1) * c.rateHz - 1) / NANOS
  {
    var r := c.rateHz;
    DivBelow(i * NANOS, r, delta);
    DivAtLeast((delta + 1) * r - 1, NANOS, i);
    assert r * (delta + 1) == (delta + 1) * r && NANOS * i == i * NANOS;
  }

  /** floor(a / k) <= q exactly when a < k * (q + 1). */
  lemma DivBelow(a: int, k: int, q: int)
    requires k > 0
    ensures a / k <= q <==> a < k * (q + 1)
  {
    DivModDef(a, k);
    if a / k <= q { MulMono(k, a / k + 1, q + 1); } else { MulMono(k, q + 1, a / k); }
  }

  lemma DivAtLeast(a: int, k: int, q: int)
    requires k > 0
    ensures q <= a / k <==> k * q <= a
  {
    DivBelow(a, k, q - 1);
  }

  /** A due time is the origin plus i periods of the rate, rounded down to a nanosecond. */
  lemma DueIsRoundedDown(c: Config, i: int)
    requires c.rateHz > 0
    ensures var after := Due(c, i) - c.originNs;
      c.rateHz * after <= 1_000_000_000 * i < c.rateHz * (after + 1)
  {
    DivModDef(i * NANOS, c.rateHz);
    var q := i * NANOS / c.rateHz;
    assert c.rateHz * (q + 1) == c.rateHz * q + c.rateHz;
  }

  /** Adjacent requests are at least 20 ns apart, so due times strictly increase. */
  lemma DueSpacing(c: Config, i: int)
    requires Accepted(c)
    ensures Due(c, i + 1) >= Due(c, i) + 20
  {
    var r := c.rateHz;
    DivModDef(i * NANOS, r);
    DivAtLeast((i + 1) * NANOS, r, i * NANOS / r + 20);
    MulMono(20, r, MAX_RATE_HZ);
    assert r * (i * NANOS / r + 20) == r * (i * NANOS / r) + 20 * r;
  }

  lemma {:induction false} DueIncreasing(c: Config, i: int, j: int)
    requires Accepted(c) && i < j
    ensures Due(c, i) + 20 <= Due(c, j)
    decreases j - i
  {
    hide Due;
    DueSpacing(c, j - 1);
    if i < j - 1 { DueIncreasing(c, i, j - 1); }
  }

  /** The last usable index, against the headroom above the origin. The clamp to 64 bits never
      acts, and every intermediate fits the width the source gives it. */
  lemma MaxIndexValue(c: Config)
    requires Accepted(c)
    ensures MaxIndex(c) == (U64_MAX - c.originNs) * c.rateHz / NANOS
    ensures 0 <= MaxIndex(c) && 20 * MaxIndex(c) <= U64_MAX
    ensures 0 <= (U64_MAX - c.originNs) * c.rateHz <= U128_MAX
  {
    var room := U64_MAX - c.originNs;
    MulMono(room, 0, c.rateHz);
    MulMono(room, c.rateHz, MAX_RATE_HZ);
    DivBelow(room * c.rateHz, NANOS, U64_MAX / 20);
  }

  predicate Fits(c: Config, i: int)
    requires c.rateHz > 0
  {
    Due(c, i) <= U64_MAX
  }

  /** Every index up to the maximum fits. One more may still fit, exactly when the headroom's
      product leaves a large enough remainder; two more never do. */
  lemma MaxIndexSharp(c: Config)
    requires Accepted(c)
    ensures Fits(c, MaxIndex(c)) && !Fits(c, MaxIndex(c) + 2)
    ensures Fits(c, MaxIndex(c) + 1)
       <==> (U64_MAX - c.originNs) * c.rateHz % NANOS + c.rateHz > NANOS
  {
    MaxIndexValue(c);
    var room, r, m := U64_MAX - c.originNs, c.rateHz, MaxIndex(c);
    DivModDef(room * r, NANOS);
    DueByIndex(c, m, room);
    DueByIndex(c, m + 1, room);
    DueByIndex(c, m + 2, room);
    assert (room + 1) * r - 1 == room * r + r - 1;
    var rest := room * r % NANOS + r - 1;
    if rest < NANOS {
      DivModUnique((room + 1) * r - 1, NANOS, m, rest);
    } else {
      DivModUnique((room + 1) * r - 1, NANOS, m + 1, rest - NANOS);
    }
  }

  /** The documented "largest index that fits" can be one short. */
  lemma MaxIndexCanBeShort()
    ensures var c := Config(U64_MAX - 333333333, 3, 1);
      Accepted(c) && MaxIndex(c) == 0 && Fits(c, 1)
  {
  }

  lemma DueFits(c: Config, i: int)
    requires Accepted(c) && 0 <= i <= MaxIndex(c)
    ensures c.originNs <= Due(c, i) <= U64_MAX
    ensures 0 <= i * NANOS <= U128_MAX
  {
    MaxIndexSharp(c);
    MaxIndexValue(c);
    if i < MaxIndex(c) { DueIncreasing(c, i, MaxIndex(c)); }
    DivAtLeast(i * NANOS, c.rateHz, 0);
  }

  // ----- the closed form counts what the walk counts

  function Entitled(c: Config, now: int): int {
    Min(((now - c.originNs + 1) * c.rateHz - 1) / NANOS, MaxIndex(c))
  }

  lemma EntitledIsLargest(c: Config, j: int, now: int)
    requires Accepted(c) && 0 <= j <= MaxIndex(c) && c.originNs <= now
    ensures Due(c, j) <= now <==> j <= Entitled(c, now)
  {
    DueByIndex(c, j, now - c.originNs);
  }

  lemma {:induction false} OwedClosedForm(c: Config, j: int, now: int)
    requires Accepted(c) && 0 <= j <= Entitled(c, now) + 1 && c.originNs <= now
    ensures Owed(c, j, now) == Entitled(c, now) + 1 - j
    decreases Entitled(c, now) + 1 - j
  {
    assert Entitled(c, now) <= MaxIndex(c);
    hide Entitled, Due, MaxIndex;
    if j <= MaxIndex(c) { EntitledIsLargest(c, j, now); }
    if j <= Entitled(c, now) { OwedClosedForm(c, j + 1, now); }
  }

  // ----- the schedule itself

  datatype NewResult = Built(schedule: Schedule) | CellError(reason: string)

  method NewSchedule(originNs: int, rateHz: nat, burstCap: nat) returns (r: NewResult)
    requires 0 <= originNs <= U64_MAX
    ensures r.Built? <==> 1 <= rateHz <= 50_000_000 && 1 <= burstCap <= 65_536
    ensures r.Built? ==>
      && fresh(r.schedule)
      && r.schedule.Valid()
      && r.schedule.config == Config(originNs, rateHz, burstCap)
      && r.schedule.Now() == State(0, 0)
    ensures r.CellError? ==>
      r.reason == if rateHz == 0 then "zero rate"
                  else if rateHz > 50_000_000 then "rate too high"
                  else if burstCap == 0 then "zero burst cap"
                  else "burst cap too high"
  {
    if rateHz < MIN_RATE_HZ { return CellError("zero rate"); }
    if rateHz > MAX_RATE_HZ { return CellError("rate too high"); }
    if burstCap == 0 { return CellError("zero burst cap"); }
    if burstCap > MAX_BURST_CAP { return CellError("burst cap too high"); }
    var schedule := new Schedule(Config(originNs, rateHz, burstCap));
    return Built(schedule);
  }

  class Schedule {
    const config: Config
    const maxIndex: int
    var nextIndex: int
    var catchupBursts: int

    predicate Valid()
      reads this
    {
      && Accepted(config)
      && maxIndex == MaxIndex(config)
      && 0 <= nextIndex <= maxIndex + 1
      && 0 <= catchupBursts <= U64_MAX
    }

    function Now(): State
      reads this
    {
      State(nextIndex, catchupBursts)
    }

    constructor (c: Config)
      requires Accepted(c)
      ensures Valid() && config == c && Now() == State(0, 0)
    {
      MaxIndexValue(c);
      config := c;
      maxIndex := MaxIndexFor(c.originNs, c.rateHz);
      nextIndex := 0;
      catchupBursts := 0;
    }

    function DueNsRaw(index: int): int
      requires config.rateHz > 0
    {
      config.originNs + index * NANOS / config.rateHz
    }

    /** Advances the schedule in constant time to where the reference walk would take it. */
    method ReleasableAt(nowNs: int) returns (r: Release)
      requires Valid() && 0 <= nowNs <= U64_MAX
      modifies `nextIndex, `catchupBursts
      ensures Valid()
      ensures (Now(), r) == ReferenceRelease(config, old(Now()), nowNs)
    {
      ReleaseCases(config, nextIndex, nowNs);
      if nextIndex > maxIndex {
        return Release(nextIndex, 0, 0, U64_MAX);
      }
      var nextDueNs := DueNsRaw(nextIndex);
      if nowNs < nextDueNs {
        return Release(nextIndex, 0, 0, nextDueNs);
      }
      var delta := Max(nowNs - config.originNs, 0);
      var numerator := (delta + 1) * config.rateHz - 1;
      var entitled := Min(numerator / NANOS, maxIndex);
      assert entitled == Entitled(config, nowNs);
      hide Entitled, MaxIndex, Due;
      var debt := Max(entitled + 1 - nextIndex, 0);
      var count := Min(debt, config.burstCap);
      if debt > config.burstCap {
        catchupBursts := Min(catchupBursts + 1, U64_MAX);
      }
      var firstIndex := nextIndex;
      nextIndex := Min(nextIndex + count, U64_MAX);
      WakeCases(config, nextIndex, nowNs);
      var nextWakeNs :=
        if nextIndex > maxIndex then U64_MAX
        else if nextIndex > entitled then DueNsRaw(nextIndex)
        else nowNs;
      return Release(firstIndex, count, debt, nextWakeNs);
    }
  }

  lemma ReleaseCases(c: Config, j: int, now: int)
    requires Accepted(c) && 0 <= j <= MaxIndex(c) + 1 && 0 <= now <= U64_MAX
    ensures 0 <= MaxIndex(c) < U64_MAX
    ensures j > MaxIndex(c) || now < Due(c, j) ==> Owed(c, j, now) == 0
    ensures j <= MaxIndex(c) && Due(c, j) <= now ==>
      && c.originNs <= now
      && j <= Entitled(c, now) <= MaxIndex(c)
      && Owed(c, j, now) == Entitled(c, now) + 1 - j
      && 0 <= (now - c.originNs + 1) * c.rateHz - 1 <= U128_MAX
  {
    MaxIndexValue(c);
    if j <= MaxIndex(c) && Due(c, j) <= now {
      DueFits(c, j);
      EntitledIsLargest(c, j, now);
      OwedClosedForm(c, j, now);
      MulMono(c.rateHz, 1, now - c.originNs + 1);
      MulMono(c.rateHz, now - c.originNs + 1, U64_MAX + 1);
      assert c.rateHz * (now - c.originNs + 1) == (now - c.originNs + 1) * c.rateHz;
    }
  }

  lemma WakeCases(c: Config, j: int, now: int)
    requires Accepted(c) && 0 <= j && c.originNs <= now
    ensures j <= MaxIndex(c) ==> (now < Due(c, j) <==> j > Entitled(c, now))
  {
    if j <= MaxIndex(c) { EntitledIsLargest(c, j, now); }
  }

  // ----- whole runs, for any sequence of clock readings, monotone or not

  function Step(c: Config, s: State, now: int): (r: State)
    requires Accepted(c)
  {
    ReferenceRelease(c, s, now).0
  }

  function RunState(c: Config, s: State, nows: seq<int>): (r: State)
    requires Accepted(c)
    decreases |nows|
  {
    if nows == [] then s else RunState(c, Step(c, s, nows[0]), nows[1..])
  }

  function RunReleases(c: Config, s: State, nows: seq<int>): (rs: seq<Release>)
    requires Accepted(c)
    ensures |rs| == |nows|
    decreases |nows|
  {
    if nows == [] then []
    else [ReferenceRelease(c, s, nows[0]).1] + RunReleases(c, Step(c, s, nows[0]), nows[1..])
  }

  function Range(a: int, b: int): seq<int> {
    if a >= b then [] else seq(b - a, i => a + i)
  }

  /** All request indices a run releases, in order. */
  function Released(rs: seq<Release>): seq<int> {
    if rs == [] then []
    else Range(rs[0].firstIndex, rs[0].firstIndex + rs[0].count) + Released(rs[1..])
  }

  lemma RangeSplit(a: int, b: int, d: int)
    requires a <= b <= d
    ensures Range(a, b) + Range(b, d) == Range(a, d)
  {
  }

  lemma {:induction false} OwedReach(c: Config, j: int, now: int)
    requires Accepted(c) && 0 <= j
    ensures forall i :: j <= i < j + Owed(c, j, now) ==> i <= MaxIndex(c) && Due(c, i) <= now
    ensures j <= MaxIndex(c) + 1 ==> j + Owed(c, j, now) <= MaxIndex(c) + 1
    decreases MaxIndex(c) + 1 - j
  {
    hide Due, MaxIndex;
    if !(j > MaxIndex(c) || now < Due(c, j)) { OwedReach(c, j + 1, now); }
  }

  /** Every request is released once, in order, with no gap: a run that starts at index a and ends
      at index b releases a, a + 1, ..., b - 1. */
  lemma {:induction false} ReleasedOnce(c: Config, s: State, nows: seq<int>)
    requires Accepted(c) && 0 <= s.nextIndex
    ensures s.nextIndex <= RunState(c, s, nows).nextIndex
    ensures Released(RunReleases(c, s, nows)) == Range(s.nextIndex, RunState(c, s, nows).nextIndex)
    decreases |nows|
  {
    hide Due, MaxIndex, Owed;
    if nows != [] {
      var s' := Step(c, s, nows[0]);
      var rs := RunReleases(c, s, nows);
      assert rs[1..] == RunReleases(c, s', nows[1..]);
      ReleasedOnce(c, s', nows[1..]);
      RangeSplit(s.nextIndex, s'.nextIndex, RunState(c, s', nows[1..]).nextIndex);
    }
  }

  /** No request is released before it is due, nor past the representable range. */
  lemma {:induction false} NeverEarly(c: Config, s: State, nows: seq<int>, k: nat, i: int)
    requires Accepted(c) && 0 <= s.nextIndex && k < |nows|
    requires var r := RunReleases(c, s, nows)[k]; r.firstIndex <= i < r.firstIndex + r.count
    ensures i <= MaxIndex(c) && Due(c, i) <= nows[k]
    decreases k
  {
    hide Due, MaxIndex, Owed;
    var rs := RunReleases(c, s, nows);
    if k == 0 {
      assert rs[0] == ReferenceRelease(c, s, nows[0]).1;
      OwedReach(c, s.nextIndex, nows[0]);
      assert Due(c, i) <= nows[0];
    } else {
      assert rs[k] == rs[1..][k - 1] && rs[1..] == RunReleases(c, Step(c, s, nows[0]), nows[1..]);
      NeverEarly(c, Step(c, s, nows[0]), nows[1..], k - 1, i);
    }
  }

  // ----- draining a debt at one instant

  function Calls(c: Config, s: State, now: int, n: nat): (r: State)
    requires Accepted(c)
  {
    if n == 0 then s else Step(c, Calls(c, s, now, n - 1), now)
  }

  lemma {:induction false} OwedLater(c: Config, j: int, now: int, n: nat)
    requires c.rateHz > 0 && n <= Owed(c, j, now)
    ensures Owed(c, j + n, now) == Owed(c, j, now) - n
    decreases n
  {
    hide Due, MaxIndex;
    if n > 0 { OwedLater(c, j + 1, now, n - 1); }
  }

  /** Calls that n calls at burst cap k count as capped, out of a debt. */
  function Capped(debt: nat, k: int, n: nat): int
    requires k > 0
  {
    if debt == 0 then 0 else Min(n, (debt - 1) / k)
  }

  lemma CappedBy(debt: nat, k: int, n: nat)
    requires k > 0 && debt > 0
    ensures n <= (debt - 1) / k <==> n * k < debt
  {
    DivAtLeast(debt - 1, k, n);
    assert k * n == n * k;
  }

  lemma OneMoreCall(debt: nat, k: int, n: nat)
    requires k > 0 && n > 0
    ensures var paid := Min(debt, (n - 1) * k);
      && 0 <= paid
      && paid + Min(debt - paid, k) == Min(debt, n * k)
      && Capped(debt, k, n - 1) + (if debt - paid > k then 1 else 0) == Capped(debt, k, n)
  {
    MulMono(k, 0, n - 1);
    assert k * (n - 1) == (n - 1) * k && n * k == (n - 1) * k + k;
    if debt > 0 {
      CappedBy(debt, k, n);
      CappedBy(debt, k, n - 1);
    }
  }

  /** n calls at one instant repay min(debt, n * cap), and the capped ones are counted. */
  lemma {:induction false} DrainAfter(c: Config, s: State, now: int, n: nat)
    requires Accepted(c) && 0 <= s.catchupBursts <= U64_MAX
    ensures var debt := Owed(c, s.nextIndex, now);
      var s' := Calls(c, s, now, n);
      && s'.nextIndex == s.nextIndex + Min(debt, n * c.burstCap)
      && s'.catchupBursts == Min(s.catchupBursts + Capped(debt, c.burstCap, n), U64_MAX)
  {
    var debt := Owed(c, s.nextIndex, now);
    if n == 0 {
      assert 0 * c.burstCap == 0;
      if debt > 0 { DivAtLeast(debt - 1, c.burstCap, 0); }
    } else {
      DrainAfter(c, s, now, n - 1);
      OneMoreCall(debt, c.burstCap, n);
      OwedLater(c, s.nextIndex, now, Min(debt, (n - 1) * c.burstCap));
      hide Due, MaxIndex, Owed, Capped, Accepted;
    }
  }

  /** A debt D >= 1 takes exactly ceil(D / cap) calls, of which floor((D - 1) / cap) are capped. */
  lemma DrainExact(c: Config, s: State, now: int, n: nat)
    requires Accepted(c) && 0 <= s.catchupBursts && s.catchupBursts + n <= U64_MAX
    requires Owed(c, s.nextIndex, now) >= 1
    requires n == (Owed(c, s.nextIndex, now) - 1) / c.burstCap + 1
    ensures Owed(c, Calls(c, s, now, n).nextIndex, now) == 0
    ensures Owed(c, Calls(c, s, now, n - 1).nextIndex, now) > 0
    ensures Calls(c, s, now, n).catchupBursts == s.catchupBursts + n - 1
  {
    hide Due, MaxIndex, Owed;
    var debt := Owed(c, s.nextIndex, now);
    DrainAfter(c, s, now, n);
    DrainAfter(c, s, now, n - 1);
    DivBelow(debt - 1, c.burstCap, n - 1);
    DivAtLeast(debt - 1, c.burstCap, n - 1);
    assert c.burstCap * n == n * c.burstCap;
    assert c.burstCap * (n - 1) == (n - 1) * c.burstCap;
    OwedLater(c, s.nextIndex, now, debt);
    MulMono(c.burstCap, 0, n - 1);
    OwedLater(c, s.nextIndex, now, (n - 1) * c.burstCap);
  }

  // ----- waking up

  /** The wake instant is not in the past, and waking there releases something unless the schedule
      is exhausted. */
  lemma WakeReleases(c: Config, s: State, now: int)
    requires Accepted(c) && 0 <= s.nextIndex <= MaxIndex(c) + 1 && 0 <= now <= U64_MAX
    ensures var (s', r) := ReferenceRelease(c, s, now);
      && now <= r.nextWakeNs <= U64_MAX
      && (s'.nextIndex <= MaxIndex(c) ==> ReferenceRelease(c, s', r.nextWakeNs).1.count >= 1)
      && (s'.nextIndex > MaxIndex(c) ==> r.nextWakeNs == U64_MAX)
  {
    OwedReach(c, s.nextIndex, now);
    var s' := Step(c, s, now);
    if s'.nextIndex <= MaxIndex(c) {
      DueFits(c, s'.nextIndex);
    }
    hide Due, MaxIndex;
  }

  /** No earlier instant would do: between the call and the wake instant nothing becomes due, so a call
      in between releases nothing. */
  lemma WakeIsEarliest(c: Config, s: State, now: int, t: int)
    requires Accepted(c) && 0 <= s.nextIndex <= MaxIndex(c) + 1 && 0 <= now <= U64_MAX
    requires var (s', r) := ReferenceRelease(c, s, now);
      s'.nextIndex <= MaxIndex(c) && now <= t < r.nextWakeNs
    ensures var (s', r) := ReferenceRelease(c, s, now);
      Owed(c, s'.nextIndex, t) == 0 && ReferenceRelease(c, s', t).1.count == 0
  {
    hide Due, MaxIndex;
  }

  lemma {:induction false} OwedStops(c: Config, j: int, now: int)
    requires Accepted(c)
    ensures var k := j + Owed(c, j, now); k > MaxIndex(c) || now < Due(c, k)
    decreases MaxIndex(c) + 1 - j
  {
    hide Due, MaxIndex;
    if !(j > MaxIndex(c) || now < Due(c, j)) { OwedStops(c, j + 1, now); }
  }

  /** The debt of a release is exactly the requests that are due and not yet released, and the release
      takes them from the first on, up to the burst cap. */
  lemma DebtIsWhatIsDue(c: Config, s: State, now: int, i: int)
    requires Accepted(c) && 0 <= s.nextIndex
    ensures var (s', r) := ReferenceRelease(c, s, now);
      && (s.nextIndex <= i < s.nextIndex + r.debt <==> s.nextIndex <= i <= MaxIndex(c) && Due(c, i) <= now)
      && r.firstIndex == s.nextIndex && r.count == Min(r.debt, c.burstCap)
      && s'.nextIndex == r.firstIndex + r.count
  {
    OwedReach(c, s.nextIndex, now);
    OwedStops(c, s.nextIndex, now);
    var k := s.nextIndex + Owed(c, s.nextIndex, now);
    if k < i { DueIncreasing(c, k, i); }
    hide Due, MaxIndex, Owed;
  }

  /** The sentinel meant for "exhausted", returned while requests are left. */
  predicate LiveSentinel(c: Config, s: State, now: int)
    requires Accepted(c)
  {
    var (s', r) := ReferenceRelease(c, s, now);
    r.nextWakeNs == U64_MAX && s'.nextIndex <= MaxIndex(c)
  }

  predicate InReach(c: Config, s: State, now: int) {
    0 <= s.nextIndex <= MaxIndex(c) + 1 && 0 <= now <= U64_MAX
  }

  /** At the largest instant everything is due. */
  lemma AllOwedAtTheEnd(c: Config, j: int)
    requires Accepted(c) && 0 <= j <= MaxIndex(c) + 1
    ensures Owed(c, j, U64_MAX) == MaxIndex(c) + 1 - j
  {
    MaxIndexValue(c);
    DueFits(c, MaxIndex(c));
    EntitledIsLargest(c, MaxIndex(c), U64_MAX);
    OwedClosedForm(c, j, U64_MAX);
  }

  lemma NoLiveSentinel(c: Config, s: State, now: int)
    requires Accepted(c) && InReach(c, s, now)
    requires Due(c, MaxIndex(c)) != U64_MAX && MaxIndex(c) + 1 <= c.burstCap
    ensures !LiveSentinel(c, s, now)
  {
    var m, next := MaxIndex(c), Step(c, s, now).nextIndex;
    MaxIndexValue(c);
    DueFits(c, m);
    if next < m { DueIncreasing(c, next, m); }
    if now == U64_MAX { AllOwedAtTheEnd(c, s.nextIndex); }
    hide Due, MaxIndex, Owed;
  }

  /** A capped call at the largest instant asks to be woken at that instant. */
  lemma CappedAtTheEnd(c: Config)
    requires Accepted(c) && MaxIndex(c) + 1 > c.burstCap
    ensures LiveSentinel(c, State(0, 0), U64_MAX)
  {
    AllOwedAtTheEnd(c, 0);
    DueFits(c, c.burstCap);
    hide Due, MaxIndex, Owed;
  }

  lemma LastDueAtTheEnd(c: Config)
    requires Accepted(c) && Due(c, MaxIndex(c)) == U64_MAX
    ensures LiveSentinel(c, State(MaxIndex(c), 0), U64_MAX - 1)
  {
    assert Owed(c, MaxIndex(c), U64_MAX - 1) == 0;
    hide Due, MaxIndex;
  }

  /** The sentinel means "exhausted" at every call exactly when the last due time is not the largest
      representable instant and no call can be capped. */
  lemma SentinelMeansExhausted(c: Config)
    requires Accepted(c)
    ensures (forall s, now :: InReach(c, s, now) ==> !LiveSentinel(c, s, now))
       <==> Due(c, MaxIndex(c)) != U64_MAX && MaxIndex(c) + 1 <= c.burstCap
  {
    MaxIndexValue(c);
    hide Due, MaxIndex, LiveSentinel;
    if Due(c, MaxIndex(c)) == U64_MAX {
      LastDueAtTheEnd(c);
      assert InReach(c, State(MaxIndex(c), 0), U64_MAX - 1);
    } else if MaxIndex(c) + 1 > c.burstCap {
      CappedAtTheEnd(c);
      assert InReach(c, State(0, 0), U64_MAX);
    } else {
      forall s, now | InReach(c, s, now) ensures !LiveSentinel(c, s, now) { NoLiveSentinel(c, s, now); }
    }
  }

  /** Two calls that get the sentinel with requests left: one capped, one before the last due time. */
  lemma SentinelCanBeLive()
    ensures Accepted(Config(0, 1, 1)) && LiveSentinel(Config(0, 1, 1), State(0, 0), U64_MAX)
    ensures Accepted(Config(U64_MAX, 1, 1)) && LiveSentinel(Config(U64_MAX, 1, 1), State(0, 0), U64_MAX - 1)
  {
    CappedAtTheEnd(Config(0, 1, 1));
    LastDueAtTheEnd(Config(U64_MAX, 1, 1));
  }

  // ----- splitting one rate across workers

  /** Worker w of n, sharing total rate R from origin t0, when n divides R. */
  function WorkerConfig(t0: int, total: int, workers: int, w: int): Config
    requires total > 0 && workers > 0
  {
    Config(t0 + w * NANOS / total, total / workers, 1)
  }

  lemma DivCancel(a: int, r: int, k: int)
    requires r > 0 && k > 0
    ensures r * k > 0 && (a * k) / (r * k) == a / r
  {
    DivModDef(a, r);
    MulMono(k, 0, a % r);
    MulMono(k, a % r + 1, r);
    MulMono(r, 1, k);
    assert a * k == (r * (a / r) + a % r) * k;
    assert (r * (a / r)) * k == (r * k) * (a / r);
    assert k * (a % r) == (a % r) * k && k * r == r * k;
    DivModUnique(a * k, r * k, a / r, (a % r) * k);
  }

  lemma DivSum(a: int, b: int, k: int)
    requires k > 0
    ensures (a + b) / k == a / k + b / k + (if a % k + b % k < k then 0 else 1)
  {
    DivModDef(a, k);
    DivModDef(b, k);
    var q, r := a / k + b / k, a % k + b % k;
    assert k * q == k * (a / k) + k * (b / k);
    if r < k {
      DivModUnique(a + b, k, q, r);
    } else {
      assert k * (q + 1) == k * q + k;
      DivModUnique(a + b, k, q + 1, r - k);
    }
  }

  /** The k-th request of worker w against global request w + k * n: never late, at most 1 ns early,
      and on time exactly when the two fractions do not carry. */
  lemma WorkerInterleaving(t0: int, total: int, workers: int, w: int, k: int)
    requires total > 0 && workers > 0 && total % workers == 0 && 0 <= w < workers && 0 <= k
    ensures total / workers > 0
    ensures var global := Due(Config(t0, total, 1), w + k * workers);
      var local := Due(WorkerConfig(t0, total, workers, w), k);
      && local <= global <= local + 1
      && (local == global <==> w * NANOS % total + k * workers * NANOS % total < total)
  {
    var r := total / workers;
    DivModDef(total, workers);
    assert r > 0 by { if r <= 0 { MulMono(workers, r, 0); } }
    assert total == r * workers;
    DivCancel(k * NANOS, r, workers);
    assert k * NANOS * workers == k * workers * NANOS;
    DivSum(w * NANOS, k * workers * NANOS, total);
    assert (w + k * workers) * NANOS == w * NANOS + k * workers * NANOS;
  }

  /** Request k of worker w is due exactly when the request it stands for is. */
  predicate KeepsTime(t0: int, total: int, workers: int, w: int, k: int)
    requires total > 0 && workers > 0 && total / workers > 0
  {
    Due(WorkerConfig(t0, total, workers, w), k) == Due(Config(t0, total, 1), w + k * workers)
  }

  predicate FitsBelow(r: nat, k: nat, a: nat, t: nat)
    requires t > 0
  {
    r + k * a % t < t
  }

  lemma NoCarry(a: nat, t: nat, r: nat)
    requires t > 0
    ensures (forall k :: FitsBelow(r, k, a, t)) <==> r < Gcd(a, t)
  {
    hide Gcd;
    if r < Gcd(a, t) {
      forall k ensures FitsBelow(r, k, a, t) { RemainderAtMost(a, t, k); }
    } else {
      var k := RemainderReached(a, t);
      assert !FitsBelow(r, k, a, t);
    }
  }

  lemma RequestOnTime(t0: int, total: int, workers: int, w: int, k: nat)
    requires total > 0 && workers > 0 && total % workers == 0 && total / workers > 0 && 0 <= w < workers
    ensures KeepsTime(t0, total, workers, w, k) <==> FitsBelow(w * NANOS % total, k, workers * NANOS, total)
  {
    hide Due, WorkerConfig;
    WorkerInterleaving(t0, total, workers, w, k);
    assert k * workers * NANOS == k * (workers * NANOS);
  }

  /** A worker keeps time at all its requests exactly when its offset leaves less than the greatest
      common divisor of a worker's step and the total rate. */
  lemma WorkerOnTime(t0: int, total: int, workers: int, w: int)
    requires total > 0 && workers > 0 && total % workers == 0 && total / workers > 0 && 0 <= w < workers
    ensures (forall k: nat :: KeepsTime(t0, total, workers, w, k))
       <==> w * NANOS % total < Gcd(workers * NANOS, total)
  {
    var r, a := w * NANOS % total, workers * NANOS;
    hide KeepsTime, FitsBelow, Gcd;
    NoCarry(a, total, r);
    forall k: nat ensures KeepsTime(t0, total, workers, w, k) <==> FitsBelow(r, k, a, total) {
      RequestOnTime(t0, total, workers, w, k);
    }
  }

  ghost predicate WorkerKeepsTime(t0: int, total: int, workers: int, w: int)
    requires total > 0 && workers > 0 && total / workers > 0
  {
    forall k: nat :: KeepsTime(t0, total, workers, w, k)
  }

  predicate SmallOffset(total: int, workers: int, w: int)
    requires total > 0 && workers > 0
  {
    w * NANOS % total < Gcd(workers * NANOS, total)
  }

  lemma ShareIsPositive(total: int, workers: int)
    requires total > 0 && workers > 0 && total % workers == 0
    ensures total / workers > 0
  {
    DivModDef(total, workers);
    if total / workers <= 0 { MulMono(workers, total / workers, 0); }
  }

  /** A split runs on time, at every request of every worker, exactly when every worker has such an
      offset. */
  lemma SplitIsOnTime(t0: int, total: int, workers: int)
    requires total > 0 && workers > 0 && total % workers == 0
    ensures total / workers > 0
    ensures (forall w :: 0 <= w < workers ==> WorkerKeepsTime(t0, total, workers, w))
       <==> (forall w :: 0 <= w < workers ==> SmallOffset(total, workers, w))
  {
    hide WorkerKeepsTime, SmallOffset;
    ShareIsPositive(total, workers);
    forall w | 0 <= w < workers
      ensures WorkerKeepsTime(t0, total, workers, w) <==> SmallOffset(total, workers, w)
    {
      OffsetDecides(t0, total, workers, w);
    }
  }

  lemma OffsetDecides(t0: int, total: int, workers: int, w: int)
    requires total > 0 && workers > 0 && total % workers == 0 && total / workers > 0 && 0 <= w < workers
    ensures WorkerKeepsTime(t0, total, workers, w) <==> SmallOffset(total, workers, w)
  {
    hide KeepsTime, Gcd;
    WorkerOnTime(t0, total, workers, w);
  }

  /** "Exactly their global due times" fails: two workers at 6 Hz. */
  lemma InterleavingCanBeEarly()
    ensures Due(WorkerConfig(0, 6, 2, 1), 1) + 1 == Due(Config(0, 6, 1), 3)
  {
  }

  function WorkerRate(total: int, workers: int, w: int): int
    requires workers > 0
  {
    total / workers + (if w < total % workers then 1 else 0)
  }

  function SumRates(total: int, workers: int, n: nat): int
    requires workers > 0
  {
    if n == 0 then 0 else SumRates(total, workers, n - 1) + WorkerRate(total, workers, n - 1)
  }

  lemma {:induction false} SumRatesOf(total: int, workers: int, n: nat)
    requires workers > 0
    ensures SumRates(total, workers, n) == n * (total / workers) + Min(n, total % workers)
  {
    DivModDef(total, workers);
    if n > 0 {
      SumRatesOf(total, workers, n - 1);
      assert n * (total / workers) == (n - 1) * (total / workers) + total / workers;
    }
  }

  /** The shares of an uneven split differ by at most one, with the larger ones first. */
  lemma RatesAreEven(total: int, workers: int, v: int, w: int)
    requires workers > 0 && 0 <= v <= w < workers
    ensures WorkerRate(total, workers, w) <= WorkerRate(total, workers, v) <= WorkerRate(total, workers, w) + 1
    ensures workers * WorkerRate(total, workers, workers - 1) <= total <= workers * WorkerRate(total, workers, 0)
  {
    DivModDef(total, workers);
    var q := total / workers;
    assert workers * (q + 1) == workers * q + workers;
  }

  /** The uneven split adds up to the whole rate. */
  lemma RatesAddUp(total: int, workers: int)
    requires workers > 0
    ensures SumRates(total, workers, workers) == total
  {
    SumRatesOf(total, workers, workers);
    DivModDef(total, workers);
  }
}
