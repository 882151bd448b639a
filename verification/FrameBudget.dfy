/** The per-connection frame budget: a token bucket refilled lazily from a wrapping
    32-bit millisecond counter. */
module FrameBudget {
  import opened Arith

  const I64_MIN: int := -0x8000_0000_0000_0000
  const I64_MAX: int := 0x7FFF_FFFF_FFFF_FFFF
  const MAX_ELAPSED_MS: int := 60_000

  type I64 = x: int | I64_MIN <= x <= I64_MAX
  type U32 = x: int | 0 <= x < U32_LIMIT

  /** Saturation to the range of a signed 64-bit integer. */
  function Sat(x: int): I64 { Max(I64_MIN, Min(x, I64_MAX)) }

  /** Division truncating toward zero. */
  function TruncDiv(a: int, b: int): int
    requires b > 0
  {
    if a >= 0 then a / b else -((-a) / b)
  }

  /** The quotient is rounded toward zero on both sides of it. */
  lemma TowardZero(a: int, b: int)
    requires a >= 0 && b > 0
    ensures b * TruncDiv(a, b) <= a < b * TruncDiv(a, b) + b && TruncDiv(-a, b) == -TruncDiv(a, b)
  {
    DivModDef(a, b);
  }

  datatype FrameEvent =
    | Ordinary
    | HeadersOpen
    | Continuation
    | EmptyDataNoEndStream
    | RstStreamReceived
    | RstStreamSent
    | Ping
    | Settings
    | SmallWindowUpdate
    | Priority
    | GoawayReceived

  datatype FrameCosts = FrameCosts(
    base: I64, headersOpen: I64, continuation: I64, emptyData: I64, rstReceived: I64, rstSent: I64,
    ping: I64, settings: I64, smallWindowUpdate: I64, priority: I64, goaway: I64)

  datatype Params = Params(capacity: I64, refillPerSec: I64, costs: FrameCosts)

  function Specific(costs: FrameCosts, ev: FrameEvent): I64 {
    match ev
    case Ordinary => 0
    case HeadersOpen => costs.headersOpen
    case Continuation => costs.continuation
    case EmptyDataNoEndStream => costs.emptyData
    case RstStreamReceived => costs.rstReceived
    case RstStreamSent => costs.rstSent
    case Ping => costs.ping
    case Settings => costs.settings
    case SmallWindowUpdate => costs.smallWindowUpdate
    case Priority => costs.priority
    case GoawayReceived => costs.goaway
  }

  function CostOf(costs: FrameCosts, ev: FrameEvent): I64 {
    Sat(costs.base + Specific(costs, ev))
  }

  /** The shipped prices. */
  const DEFAULT_COSTS := FrameCosts(1, 10, 2, 20, 40, 40, 10, 20, 10, 5, 0)

  /** What each kind of frame costs with the shipped prices. */
  lemma ShippedPrices()
    ensures CostOf(DEFAULT_COSTS, Ordinary) == 1 && CostOf(DEFAULT_COSTS, HeadersOpen) == 11
    ensures CostOf(DEFAULT_COSTS, Continuation) == 3 && CostOf(DEFAULT_COSTS, EmptyDataNoEndStream) == 21
    ensures CostOf(DEFAULT_COSTS, RstStreamReceived) == 41 && CostOf(DEFAULT_COSTS, RstStreamSent) == 41
    ensures CostOf(DEFAULT_COSTS, Ping) == 11 && CostOf(DEFAULT_COSTS, Settings) == 21
    ensures CostOf(DEFAULT_COSTS, SmallWindowUpdate) == 11 && CostOf(DEFAULT_COSTS, Priority) == 6
    ensures CostOf(DEFAULT_COSTS, GoawayReceived) == 1
  {
  }

  /** A new price for one kind of frame: it decides that kind, and no other. */
  predicate Moves(k: FrameCosts, k': FrameCosts, kind: FrameEvent, x: I64) {
    && CostOf(k', kind) == Sat(k.base + x)
    && forall ev :: ev != kind ==> CostOf(k', ev) == CostOf(k, ev)
  }

  /** Each price field is the price of its own kind of frame on top of the base; an ordinary frame costs
      the base. */
  lemma PricesAreSeparate(k: FrameCosts, x: I64)
    ensures CostOf(k, Ordinary) == k.base
    ensures Moves(k, k.(headersOpen := x), HeadersOpen, x) && Moves(k, k.(continuation := x), Continuation, x)
    ensures Moves(k, k.(emptyData := x), EmptyDataNoEndStream, x)
    ensures Moves(k, k.(rstReceived := x), RstStreamReceived, x) && Moves(k, k.(rstSent := x), RstStreamSent, x)
    ensures Moves(k, k.(ping := x), Ping, x) && Moves(k, k.(settings := x), Settings, x)
    ensures Moves(k, k.(smallWindowUpdate := x), SmallWindowUpdate, x) && Moves(k, k.(priority := x), Priority, x)
    ensures Moves(k, k.(goaway := x), GoawayReceived, x)
  {
    hide Moves;
    StreamPrices(k, x);
    ResetPrices(k, x);
    ControlPrices(k, x);
  }

  lemma StreamPrices(k: FrameCosts, x: I64)
    ensures Moves(k, k.(headersOpen := x), HeadersOpen, x) && Moves(k, k.(continuation := x), Continuation, x)
    ensures Moves(k, k.(emptyData := x), EmptyDataNoEndStream, x)
  {
    hide Sat;
  }

  lemma ResetPrices(k: FrameCosts, x: I64)
    ensures Moves(k, k.(rstReceived := x), RstStreamReceived, x) && Moves(k, k.(rstSent := x), RstStreamSent, x)
    ensures Moves(k, k.(goaway := x), GoawayReceived, x)
  {
    hide Sat;
  }

  lemma ControlPrices(k: FrameCosts, x: I64)
    ensures Moves(k, k.(ping := x), Ping, x) && Moves(k, k.(settings := x), Settings, x)
    ensures Moves(k, k.(smallWindowUpdate := x), SmallWindowUpdate, x) && Moves(k, k.(priority := x), Priority, x)
  {
    hide Sat;
  }

  /** No frame is priced below zero, so no frame is a refund. */
  ghost predicate NeverCredits(p: Params) {
    forall ev :: 0 <= CostOf(p.costs, ev)
  }

  /** The part of a budget that frames change. */
  datatype Bucket = Bucket(tokens: I64, lastRefill: U32)

  function Elapsed(lastRefill: U32, nowMs: U32): int {
    Min((nowMs - lastRefill) % U32_LIMIT, MAX_ELAPSED_MS)
  }

  function Gain(p: Params, lastRefill: U32, nowMs: U32): int {
    TruncDiv(Sat(Elapsed(lastRefill, nowMs) * p.refillPerSec), 1000)
  }

  function Refilled(p: Params, b: Bucket, nowMs: U32): Bucket {
    var gain := Gain(p, b.lastRefill, nowMs);
    if gain > 0 then Bucket(Min(p.capacity, Sat(b.tokens + gain)), nowMs) else b
  }

  function Debited(p: Params, b: Bucket, ev: FrameEvent, nowMs: U32): Bucket {
    var r := Refilled(p, b, nowMs);
    r.(tokens := Sat(r.tokens - CostOf(p.costs, ev)))
  }

  datatype Verdict = Admitted | EnhanceYourCalm(deficit: int)

  datatype StreamOp = Open | Close

  /** The stream count after one call: an open takes a slot while one is free, a close returns one. */
  function StreamsAfter(count: U32, limit: U32, op: StreamOp): U32 {
    match op
    case Open => if count < limit then count + 1 else count
    case Close => Max(count - 1, 0)
  }

  function StreamsRun(count: U32, limit: U32, ops: seq<StreamOp>): U32
    decreases |ops|
  {
    if ops == [] then count else StreamsRun(StreamsAfter(count, limit, ops[0]), limit, ops[1..])
  }

  /** Opens that were admitted. */
  function Admissions(count: U32, limit: U32, ops: seq<StreamOp>): nat
    decreases |ops|
  {
    if ops == [] then 0
    else (if ops[0].Open? && count < limit then 1 else 0)
         + Admissions(StreamsAfter(count, limit, ops[0]), limit, ops[1..])
  }

  /** Closes that found a stream to close. */
  function Releases(count: U32, limit: U32, ops: seq<StreamOp>): nat
    decreases |ops|
  {
    if ops == [] then 0
    else (if ops[0].Close? && count > 0 then 1 else 0)
         + Releases(StreamsAfter(count, limit, ops[0]), limit, ops[1..])
  }

  /** Over any sequence of opens and closes the count stays within the limit, and is what it was plus
      the opens admitted minus the streams closed. */
  lemma {:induction false} StreamsStayWithinLimit(count: U32, limit: U32, ops: seq<StreamOp>)
    requires count <= limit
    ensures StreamsRun(count, limit, ops) <= limit
    ensures StreamsRun(count, limit, ops) == count + Admissions(count, limit, ops) - Releases(count, limit, ops)
    decreases |ops|
  {
    if ops != [] { StreamsStayWithinLimit(StreamsAfter(count, limit, ops[0]), limit, ops[1..]); }
  }

  class ConnBudget {
    const params: Params
    var tokens: I64
    var lastRefill: U32
    var concurrentProto: U32
    const maxConcurrentProto: U32

    function State(): Bucket
      reads this
    {
      Bucket(tokens, lastRefill)
    }

    constructor WithParams(p: Params, maxConcurrentProto: U32, nowMs: U32)
      ensures params == p && this.maxConcurrentProto == maxConcurrentProto
      ensures State() == Bucket(p.capacity, nowMs) && concurrentProto == 0
    {
      params := p;
      tokens := p.capacity;
      lastRefill := nowMs;
      concurrentProto := 0;
      this.maxConcurrentProto := maxConcurrentProto;
    }

    method OnFrame(ev: FrameEvent, nowMs: U32) returns (verdict: Verdict)
      modifies `tokens, `lastRefill
      ensures State() == Debited(params, old(State()), ev, nowMs)
      ensures verdict == if tokens < 0 then EnhanceYourCalm(Min(-(tokens as int), I64_MAX)) else Admitted
    {
      hide CostOf, TruncDiv;
      var elapsed := Min((nowMs - lastRefill) % U32_LIMIT, MAX_ELAPSED_MS);
      var gain := TruncDiv(Sat(elapsed * params.refillPerSec), 1000);
      if gain > 0 {
        tokens := Min(params.capacity, Sat(tokens + gain));
        lastRefill := nowMs;
      }
      tokens := Sat(tokens - CostOf(params.costs, ev));
      if tokens < 0 {
        return EnhanceYourCalm(Sat(-(tokens as int)));
      }
      return Admitted;
    }

    /** The shipped budget. */
    constructor New(nowMs: U32)
      ensures params == DEFAULT_PARAMS && maxConcurrentProto == 128
      ensures State() == Bucket(10_000, nowMs) && concurrentProto == 0
    {
      params := DEFAULT_PARAMS;
      tokens := DEFAULT_PARAMS.capacity;
      lastRefill := nowMs;
      concurrentProto := 0;
      maxConcurrentProto := 128;
    }

    /** Takes a stream slot while one is free; frames and streams do not touch each other's state. */
    method OpenStream() returns (ok: bool)
      modifies `concurrentProto
      ensures ok <==> old(concurrentProto) < maxConcurrentProto
      ensures concurrentProto == StreamsAfter(old(concurrentProto), maxConcurrentProto, Open)
    {
      ok := concurrentProto < maxConcurrentProto;
      if ok { concurrentProto := Min(concurrentProto + 1, U32_LIMIT - 1); }
    }

    method CloseStream()
      modifies `concurrentProto
      ensures concurrentProto == StreamsAfter(old(concurrentProto), maxConcurrentProto, Close)
    {
      concurrentProto := Max(concurrentProto - 1, 0);
    }
  }

  // ----- runs: frames stamped with a true clock whose low 32 bits the budget sees

  datatype Frame = Frame(ev: FrameEvent, at: int)

  predicate Ordered(from: int, frames: seq<Frame>)
    decreases |frames|
  {
    frames != [] ==> from <= frames[0].at && Ordered(frames[0].at, frames[1..])
  }

  function LastAt(from: int, frames: seq<Frame>): int {
    if frames == [] then from else frames[|frames| - 1].at
  }

  function After(p: Params, b: Bucket, f: Frame): Bucket {
    Debited(p, b, f.ev, f.at % U32_LIMIT)
  }

  function Run(p: Params, b: Bucket, frames: seq<Frame>): Bucket
    decreases |frames|
  {
    if frames == [] then b else Run(p, After(p, b, frames[0]), frames[1..])
  }

  /** Total cost of the frames a run admits. The caller may go on after a refusal. */
  function AdmittedCost(p: Params, b: Bucket, frames: seq<Frame>): int
    decreases |frames|
  {
    if frames == [] then 0
    else
      var b' := After(p, b, frames[0]);
      (if b'.tokens >= 0 then CostOf(p.costs, frames[0].ev) else 0) + AdmittedCost(p, b', frames[1..])
  }

  // ----- one frame

  /** A true time that the stored 32-bit watermark may stand for. */
  predicate Watermark(b: Bucket, w: int) { b.lastRefill == w % U32_LIMIT }

  lemma ElapsedWithin(w: int, t: int)
    requires w <= t
    ensures 0 <= Elapsed(w % U32_LIMIT, t % U32_LIMIT) <= t - w
    ensures t - w <= MAX_ELAPSED_MS ==> Elapsed(w % U32_LIMIT, t % U32_LIMIT) == t - w
  {
    var d := (t % U32_LIMIT - w % U32_LIMIT) % U32_LIMIT;
    assert d == (t - w) % U32_LIMIT by { ModSub(t, w, U32_LIMIT); }
    ModAtMost(t - w, U32_LIMIT);
  }

  lemma ModSub(a: int, b: int, k: int)
    requires k > 0
    ensures (a % k - b % k) % k == (a - b) % k
  {
    DivModDef(a, k);
    DivModDef(b, k);
    var x := a % k - b % k;
    DivModDef(x, k);
    var q := a / k - b / k + x / k;
    assert k * q == k * (a / k) - k * (b / k) + k * (x / k);
    DivModUnique(a - b, k, q, x % k);
  }

  lemma ModAtMost(n: int, k: int)
    requires k > 0 && n >= 0
    ensures n % k <= n
    ensures n < k ==> n % k == n
  {
    if n < k { DivModUnique(n, k, 0, n); } else { DivModDef(n, k); }
  }

  lemma GainWithin(p: Params, w: int, t: int)
    requires w <= t
    ensures Gain(p, w % U32_LIMIT, t % U32_LIMIT) > 0
        ==> 1000 * Gain(p, w % U32_LIMIT, t % U32_LIMIT) <= Max(p.refillPerSec, 0) * (t - w)
  {
    ElapsedWithin(w, t);
    var e, r := Elapsed(w % U32_LIMIT, t % U32_LIMIT), p.refillPerSec;
    if r <= 0 {
      MulMono(e, r, 0);
      assert e * r <= 0;
    } else {
      MulMono(r, e, t - w);
      assert r * e == e * r;
    }
  }

  lemma AfterOneFrame(p: Params, b: Bucket, f: Frame, w: int) returns (w': int)
    requires NeverCredits(p) && Watermark(b, w) && w <= f.at
    ensures Watermark(After(p, b, f), w') && w <= w' <= f.at
    ensures var b' := After(p, b, f);
      1000 * ((if b'.tokens >= 0 then CostOf(p.costs, f.ev) else 0) + Max(b'.tokens, 0))
      <= 1000 * Max(b.tokens, 0) + Max(p.refillPerSec, 0) * (w' - w)
  {
    var t := f.at % U32_LIMIT;
    var g := Gain(p, b.lastRefill, t);
    GainWithin(p, w, f.at);
    w' := if g > 0 then f.at else w;
    assert 0 <= CostOf(p.costs, f.ev);
    hide Gain;
  }

  // ----- rate bounds over whole runs and over windows

  lemma OrderedFrom(a: int, b: int, frames: seq<Frame>)
    requires a <= b && Ordered(b, frames)
    ensures Ordered(a, frames)
  {
  }

  /** Admissions are paid for by the tokens at the start and the time since the watermark. */
  lemma {:induction false} RunBound(p: Params, b: Bucket, frames: seq<Frame>, w: int)
    requires NeverCredits(p) && Watermark(b, w) && Ordered(w, frames)
    ensures 1000 * AdmittedCost(p, b, frames)
         <= 1000 * Max(b.tokens, 0) + Max(p.refillPerSec, 0) * (LastAt(w, frames) - w)
    decreases |frames|
  {
    hide After, NeverCredits;
    var r := Max(p.refillPerSec, 0);
    if frames != [] {
      var rest := frames[1..];
      var w' := AfterOneFrame(p, b, frames[0], w);
      OrderedFrom(w', frames[0].at, rest);
      RunBound(p, After(p, b, frames[0]), rest, w');
      assert LastAt(w', rest) <= LastAt(w, frames);
      MulMono(r, LastAt(w', rest), LastAt(w, frames));
      MulSub(r, LastAt(w', rest), w');
      MulSub(r, w', w);
      MulSub(r, LastAt(w, frames), w);
    }
  }

  /** From creation on, at any later instant. */
  lemma RunRate(p: Params, t0: int, frames: seq<Frame>)
    requires NeverCredits(p) && Ordered(t0, frames)
    ensures AdmittedCost(p, Bucket(p.capacity, t0 % U32_LIMIT), frames)
         <= Max(p.capacity, 0) + Max(p.refillPerSec, 0) * (LastAt(t0, frames) - t0) / 1000
  {
    RunBound(p, Bucket(p.capacity, t0 % U32_LIMIT), frames, t0);
  }

  lemma NoWholeToken(x: int)
    requires 0 <= x && TruncDiv(Sat(x), 1000) <= 0
    ensures x < 1000
  {
  }

  lemma NoGain(p: Params, e: int)
    requires 0 <= e <= MAX_ELAPSED_MS && TruncDiv(Sat(e * p.refillPerSec), 1000) <= 0
    ensures Max(p.refillPerSec, 0) * e < 1000
    ensures e == MAX_ELAPSED_MS ==> p.refillPerSec <= 0
  {
    var r := p.refillPerSec;
    if r > 0 {
      MulMono(e, 1, r);
      NoWholeToken(e * r);
    }
  }

  lemma LatestWatermark(w: int, t: int) returns (w': int)
    requires w <= t
    ensures w' % U32_LIMIT == w % U32_LIMIT && w' == t - (t - w) % U32_LIMIT
  {
    w' := t - (t - w) % U32_LIMIT;
    DivModDef(t - w, U32_LIMIT);
    DivModDef(w, U32_LIMIT);
    DivModUnique(w', U32_LIMIT, (t - w) / U32_LIMIT + w / U32_LIMIT, w % U32_LIMIT);
  }

  lemma SmallRemainder(p: Params, b: Bucket, t: int, w: int) returns (w': int)
    requires Watermark(b, w) && w <= t && Gain(p, b.lastRefill, t % U32_LIMIT) <= 0
    ensures Watermark(b, w') && w' <= t && Max(p.refillPerSec, 0) * (t - w') < 1000
  {
    ModSub(t, w, U32_LIMIT);
    w' := LatestWatermark(w, t);
    NoGain(p, Elapsed(b.lastRefill, t % U32_LIMIT));
  }

  /** The first frame of a window leaves at most a full bucket and less than one token pending. */
  lemma FirstFrame(p: Params, b: Bucket, f: Frame, w: int) returns (w': int)
    requires NeverCredits(p) && Watermark(b, w) && w <= f.at && b.tokens <= p.capacity
    ensures Watermark(After(p, b, f), w') && w' <= f.at
    ensures Max(p.refillPerSec, 0) * (f.at - w') < 1000
    ensures var b' := After(p, b, f);
      && b'.tokens <= p.capacity
      && (if b'.tokens >= 0 then CostOf(p.costs, f.ev) else 0) + Max(b'.tokens, 0) <= Max(p.capacity, 0)
  {
    assert 0 <= CostOf(p.costs, f.ev);
    if Gain(p, b.lastRefill, f.at % U32_LIMIT) > 0 {
      w' := f.at;
    } else {
      w' := SmallRemainder(p, b, f.at, w);
    }
    hide Gain;
  }

  lemma {:induction false} Reached(p: Params, b: Bucket, frames: seq<Frame>, w: int) returns (w': int)
    requires NeverCredits(p) && Watermark(b, w) && Ordered(w, frames) && b.tokens <= p.capacity
    ensures Watermark(Run(p, b, frames), w') && w' <= LastAt(w, frames)
    ensures Run(p, b, frames).tokens <= p.capacity
    decreases |frames|
  {
    hide After, NeverCredits;
    if frames == [] {
      w' := w;
    } else {
      var v := FirstFrame(p, b, frames[0], w);
      OrderedFrom(v, frames[0].at, frames[1..]);
      w' := Reached(p, After(p, b, frames[0]), frames[1..], v);
    }
  }

  function CeilDiv(a: int, k: int): int
    requires k > 0
  {
    (a + k - 1) / k
  }

  /** Over any window of any run, whatever came before it and however the caller reacts to
      refusals, admissions are bounded by one full bucket plus the refill of the window's length. */
  lemma WindowRate(p: Params, t0: int, before: seq<Frame>, window: seq<Frame>)
    requires NeverCredits(p) && window != []
    requires Ordered(t0, before) && Ordered(LastAt(t0, before), window)
    ensures var b := Run(p, Bucket(p.capacity, t0 % U32_LIMIT), before);
      AdmittedCost(p, b, window)
      <= Max(p.capacity, 0)
         + CeilDiv(Max(p.refillPerSec, 0) * (LastAt(t0, window) - window[0].at), 1000)
  {
    hide After, NeverCredits, Run;
    var w := Reached(p, Bucket(p.capacity, t0 % U32_LIMIT), before, t0);
    var b := Run(p, Bucket(p.capacity, t0 % U32_LIMIT), before);
    var f, rest := window[0], window[1..];
    var v := FirstFrame(p, b, f, w);
    OrderedFrom(v, f.at, rest);
    RunBound(p, After(p, b, f), rest, v);
    var r, last := Max(p.refillPerSec, 0), LastAt(t0, window);
    assert LastAt(v, rest) <= last;
    MulMono(r, LastAt(v, rest) - v, last - v);
    MulSub(r, last, v);
    MulSub(r, last, f.at);
    MulSub(r, f.at, v);
  }

  /** Admitted frames of one kind. */
  function AdmittedOf(kind: FrameEvent, p: Params, b: Bucket, frames: seq<Frame>): nat
    decreases |frames|
  {
    if frames == [] then 0
    else
      var b' := After(p, b, frames[0]);
      (if b'.tokens >= 0 && frames[0].ev == kind then 1 else 0) + AdmittedOf(kind, p, b', frames[1..])
  }

  lemma {:induction false} KindIsPaidFor(kind: FrameEvent, p: Params, b: Bucket, frames: seq<Frame>)
    requires NeverCredits(p)
    ensures CostOf(p.costs, kind) * AdmittedOf(kind, p, b, frames) <= AdmittedCost(p, b, frames)
    decreases |frames|
  {
    if frames != [] {
      var b' := After(p, b, frames[0]);
      assert 0 <= CostOf(p.costs, frames[0].ev);
      KindIsPaidFor(kind, p, b', frames[1..]);
      hide CostOf, After, NeverCredits;
      var price, n := CostOf(p.costs, kind), AdmittedOf(kind, p, b', frames[1..]);
      assert AdmittedOf(kind, p, b, frames) == (if b'.tokens >= 0 && frames[0].ev == kind then 1 else 0) + n;
      hide AdmittedOf;
      OneMore(price, n);
    }
  }

  lemma OneMore(price: int, n: int)
    ensures price * (1 + n) == price * n + price && price * (0 + n) == price * n
  {
  }

  /** The frames of one kind that a window admits, from their own price. */
  lemma WindowOfOneKind(kind: FrameEvent, p: Params, t0: int, before: seq<Frame>, window: seq<Frame>)
    requires NeverCredits(p) && window != []
    requires Ordered(t0, before) && Ordered(LastAt(t0, before), window)
    ensures var b := Run(p, Bucket(p.capacity, t0 % U32_LIMIT), before);
      CostOf(p.costs, kind) * AdmittedOf(kind, p, b, window)
      <= Max(p.capacity, 0)
         + CeilDiv(Max(p.refillPerSec, 0) * (LastAt(t0, window) - window[0].at), 1000)
  {
    hide NeverCredits, AdmittedOf, AdmittedCost, CostOf, CeilDiv, Run;
    WindowRate(p, t0, before, window);
    KindIsPaidFor(kind, p, Run(p, Bucket(p.capacity, t0 % U32_LIMIT), before), window);
  }

  const DEFAULT_PARAMS := Params(10_000, 1_000, DEFAULT_COSTS)

  lemma ShippedNeverCredits()
    ensures NeverCredits(DEFAULT_PARAMS)
  {
  }

  /** With the shipped parameters, a window of ms milliseconds admits at most (10000 + ms) / 41 resets
      from the peer. */
  lemma ResetsAreBounded(t0: int, before: seq<Frame>, window: seq<Frame>)
    requires window != [] && Ordered(t0, before) && Ordered(LastAt(t0, before), window)
    ensures var b := Run(DEFAULT_PARAMS, Bucket(10_000, t0 % U32_LIMIT), before);
      41 * AdmittedOf(RstStreamReceived, DEFAULT_PARAMS, b, window) <= 10_000 + (LastAt(t0, window) - window[0].at)
  {
    ShippedNeverCredits();
    ShippedPrices();
    hide NeverCredits, AdmittedOf, CostOf, Run, LastAt, Ordered;
    WindowOfOneKind(RstStreamReceived, DEFAULT_PARAMS, t0, before, window);
    WholeThousands(LastAt(t0, window) - window[0].at);
  }

  lemma WholeThousands(ms: int)
    ensures CeilDiv(1000 * ms, 1000) == ms
  {
    DivModUnique(1000 * ms + 999, 1000, ms, 999);
  }

  // ----- what flooring the credit costs

  /** Whole tokens granted over a run, before the cap at capacity. */
  function Credited(p: Params, b: Bucket, frames: seq<Frame>): int
    decreases |frames|
  {
    if frames == [] then 0
    else Max(Gain(p, b.lastRefill, frames[0].at % U32_LIMIT), 0)
         + Credited(p, After(p, b, frames[0]), frames[1..])
  }

  /** Thousandths of a token earned but not granted by the calls that granted some. */
  function Dropped(p: Params, b: Bucket, frames: seq<Frame>): int
    decreases |frames|
  {
    if frames == [] then 0
    else
      var f := frames[0];
      var g := Gain(p, b.lastRefill, f.at % U32_LIMIT);
      (if g > 0 then Elapsed(b.lastRefill, f.at % U32_LIMIT) * p.refillPerSec - 1000 * g else 0)
      + Dropped(p, After(p, b, f), frames[1..])
  }

  /** The watermark after a run that starts from watermark w. */
  function Mark(p: Params, b: Bucket, frames: seq<Frame>, w: int): int
    decreases |frames|
  {
    if frames == [] then w
    else
      var f := frames[0];
      Mark(p, After(p, b, f), frames[1..], if Gain(p, b.lastRefill, f.at % U32_LIMIT) > 0 then f.at else w)
  }

  /** No call sees more than the 60 s clamp since the watermark. */
  predicate Unclamped(p: Params, b: Bucket, frames: seq<Frame>, w: int)
    decreases |frames|
  {
    frames != [] ==>
      var f := frames[0];
      && f.at - w <= MAX_ELAPSED_MS
      && Unclamped(p, After(p, b, f), frames[1..],
                   if Gain(p, b.lastRefill, f.at % U32_LIMIT) > 0 then f.at else w)
  }

  /** A rate whose largest product does not saturate. */
  predicate PlainRate(p: Params) { 0 <= p.refillPerSec && p.refillPerSec * MAX_ELAPSED_MS <= I64_MAX }

  /** A rate of which saturation never takes more than half. */
  predicate HalfRate(p: Params) { 30 * p.refillPerSec <= I64_MAX / 1000 }

  /** Whole tokens out of x thousandths: floored, saturated, and none for less than one. */
  lemma WholeTokens(x: int)
    ensures var g := TruncDiv(Sat(x), 1000);
      && (g <= 0 <==> x < 1000)
      && (1000 <= x <= I64_MAX ==> 1000 * g <= x <= 1000 * g + 999)
      && (x > I64_MAX ==> g == I64_MAX / 1000)
  {
  }

  lemma StepGain(p: Params, lastRefill: U32, now: U32)
    ensures var e := Elapsed(lastRefill, now);
      var x := e * p.refillPerSec;
      var g := Gain(p, lastRefill, now);
      && 0 <= e <= MAX_ELAPSED_MS
      && (g <= 0 ==> x < 1000)
      && (g > 0 ==> 1000 * g <= x)
      && (g > 0 && PlainRate(p) ==> x <= 1000 * g + 999)
      && (g > 0 && HalfRate(p) ==> x <= 2000 * g)
      && (g > 0 ==> p.refillPerSec > 0)
  {
    var e, r := Elapsed(lastRefill, now), p.refillPerSec;
    WholeTokens(e * r);
    hide TruncDiv, Sat;
    if r > 0 {
      MulMono(r, e, MAX_ELAPSED_MS);
      assert r * e == e * r && r * MAX_ELAPSED_MS == 2000 * (30 * r);
    } else {
      MulMono(e, r, 0);
    }
  }

  /** Every thousandth of a token earned since w was granted, dropped, or is still pending. */
  lemma {:induction false} CreditLedger(p: Params, b: Bucket, frames: seq<Frame>, w: int)
    requires Watermark(b, w) && Ordered(w, frames) && Unclamped(p, b, frames, w)
    ensures w <= Mark(p, b, frames, w) <= LastAt(w, frames)
    ensures p.refillPerSec * (Mark(p, b, frames, w) - w)
         == 1000 * Credited(p, b, frames) + Dropped(p, b, frames)
    ensures 0 <= Dropped(p, b, frames)
    ensures PlainRate(p) ==> Dropped(p, b, frames) <= 999 * Credited(p, b, frames)
    ensures HalfRate(p) ==> Dropped(p, b, frames) <= 1000 * Credited(p, b, frames)
    decreases |frames|
  {
    if frames != [] {
      var f, rest := frames[0], frames[1..];
      ElapsedWithin(w, f.at);
      StepGain(p, b.lastRefill, f.at % U32_LIMIT);
      var g := Gain(p, b.lastRefill, f.at % U32_LIMIT);
      hide Gain, Elapsed, CostOf, PlainRate, HalfRate;
      var w' := if g > 0 then f.at else w;
      OrderedFrom(w', f.at, rest);
      CreditLedger(p, After(p, b, f), rest, w');
      var r, m := p.refillPerSec, Mark(p, b, frames, w);
      MulSub(r, m, w');
      MulSub(r, m, w);
      MulSub(r, w', w);
      assert r * (f.at - w) == (f.at - w) * r;
    }
  }

  lemma UngrantedIsFraction(p: Params, w: int, t: int)
    requires w <= t <= w + MAX_ELAPSED_MS && Gain(p, w % U32_LIMIT, t % U32_LIMIT) <= 0
    ensures p.refillPerSec * (t - w) < 1000
  {
    ElapsedWithin(w, t);
    StepGain(p, w % U32_LIMIT, t % U32_LIMIT);
    hide Gain, Elapsed, PlainRate, HalfRate;
    assert p.refillPerSec * (t - w) == (t - w) * p.refillPerSec;
  }

  lemma NextMark(p: Params, b: Bucket, frames: seq<Frame>, w: int) returns (w': int)
    requires Watermark(b, w) && Ordered(w, frames) && Unclamped(p, b, frames, w) && frames != []
    ensures var f, rest, b' := frames[0], frames[1..], After(p, b, frames[0]);
      && Watermark(b', w') && w' <= f.at && Ordered(w', rest) && Unclamped(p, b', rest, w')
      && Mark(p, b, frames, w) == Mark(p, b', rest, w')
      && p.refillPerSec * (f.at - w') < 1000
  {
    hide Gain, CostOf;
    var f := frames[0];
    if Gain(p, b.lastRefill, f.at % U32_LIMIT) > 0 {
      w' := f.at;
      assert f.at - w' == 0;
    } else {
      w' := w;
      UngrantedIsFraction(p, w, f.at);
    }
    OrderedFrom(w', f.at, frames[1..]);
  }

  lemma {:induction false} PendingIsFraction(p: Params, b: Bucket, frames: seq<Frame>, w: int)
    requires Watermark(b, w) && Ordered(w, frames) && Unclamped(p, b, frames, w)
    requires frames != []
    ensures p.refillPerSec * (LastAt(w, frames) - Mark(p, b, frames, w)) < 1000
    decreases |frames|
  {
    var w' := NextMark(p, b, frames, w);
    hide Watermark, Ordered, Unclamped, After;
    if frames[1..] != [] {
      PendingIsFraction(p, After(p, b, frames[0]), frames[1..], w');
    }
  }

  /** Less than half of what was earned is lost, plus less than one token. */
  lemma HalfCredit(p: Params, b: Bucket, frames: seq<Frame>, w: int)
    requires HalfRate(p) && Watermark(b, w) && Ordered(w, frames) && Unclamped(p, b, frames, w)
    requires frames != []
    ensures p.refillPerSec * (LastAt(w, frames) - w) < 1000 * (2 * Credited(p, b, frames) + 1)
  {
    CreditLedger(p, b, frames, w);
    PendingIsFraction(p, b, frames, w);
    var r, m, last := p.refillPerSec, Mark(p, b, frames, w), LastAt(w, frames);
    MulSub(r, last, m);
    MulSub(r, m, w);
    MulSub(r, last, w);
  }

  const EMPTY := Bucket(0, 0)

  /** One frame e milliseconds after an empty bucket was last refilled. */
  function OneFrame(e: int): seq<Frame> { [Frame(Ordinary, e)] }

  lemma OneFrameRun(p: Params, e: int)
    requires 0 <= e <= MAX_ELAPSED_MS
    ensures Watermark(EMPTY, 0) && Ordered(0, OneFrame(e)) && Unclamped(p, EMPTY, OneFrame(e), 0)
    ensures LastAt(0, OneFrame(e)) == e
    ensures var g := TruncDiv(Sat(e * p.refillPerSec), 1000);
      && Credited(p, EMPTY, OneFrame(e)) == Max(g, 0)
      && Dropped(p, EMPTY, OneFrame(e)) == if g > 0 then e * p.refillPerSec - 1000 * g else 0
  {
    var frames := OneFrame(e);
    ElapsedWithin(0, e);
    assert Gain(p, 0, e % U32_LIMIT) == TruncDiv(Sat(e * p.refillPerSec), 1000);
    hide Gain, Elapsed, CostOf, TruncDiv, Sat;
    var rest := frames[1..];
    assert rest == [];
    var b' := After(p, EMPTY, frames[0]);
    assert Ordered(e, rest) && Unclamped(p, b', rest, 0) && Unclamped(p, b', rest, e);
    assert Credited(p, b', rest) == 0 && Dropped(p, b', rest) == 0;
  }

  ghost predicate AlwaysHalf(p: Params) {
    forall b: Bucket, frames, w ::
      Watermark(b, w) && Ordered(w, frames) && Unclamped(p, b, frames, w) && frames != []
      ==> p.refillPerSec * (LastAt(w, frames) - w) < 1000 * (2 * Credited(p, b, frames) + 1)
  }

  /** More than half is delivered in every unclamped run exactly for the rates of which saturation
      never takes more than half. */
  lemma HalfCreditReach(p: Params)
    ensures AlwaysHalf(p) <==> HalfRate(p)
  {
    hide Unclamped, Ordered, Watermark, LastAt, Credited;
    if HalfRate(p) {
      forall b: Bucket, frames, w
        | Watermark(b, w) && Ordered(w, frames) && Unclamped(p, b, frames, w) && frames != []
        ensures p.refillPerSec * (LastAt(w, frames) - w) < 1000 * (2 * Credited(p, b, frames) + 1)
      {
        HalfCredit(p, b, frames, w);
      }
    } else {
      OneFrameRun(p, MAX_ELAPSED_MS);
      WholeTokens(MAX_ELAPSED_MS * p.refillPerSec);
    }
  }

  function Ticks(from: int, n: nat): seq<Frame>
    decreases n
  {
    if n == 0 then [] else [Frame(Ordinary, from + 1)] + Ticks(from + 1, n - 1)
  }

  /** At 1999 tokens per second and one frame per millisecond almost half is lost, forever. */
  lemma {:induction false} HalfIsSharp(p: Params, b: Bucket, from: int, n: nat)
    requires p.refillPerSec == 1999 && Watermark(b, from)
    ensures Ordered(from, Ticks(from, n)) && Unclamped(p, b, Ticks(from, n), from)
    ensures Credited(p, b, Ticks(from, n)) == n && Dropped(p, b, Ticks(from, n)) == 999 * n
    decreases n
  {
    if n > 0 {
      var frames := Ticks(from, n);
      ElapsedWithin(from, from + 1);
      WholeTokens(1999);
      assert Gain(p, from % U32_LIMIT, (from + 1) % U32_LIMIT) == 1;
      assert frames[1..] == Ticks(from + 1, n - 1);
      hide Gain, Elapsed, CostOf;
      HalfIsSharp(p, After(p, b, frames[0]), from + 1, n - 1);
    }
  }

  ghost predicate NeverDrops(p: Params) {
    forall b: Bucket, frames, w ::
      Watermark(b, w) && Ordered(w, frames) && Unclamped(p, b, frames, w) ==> Dropped(p, b, frames) == 0
  }

  /** A rate that is a whole number of tokens per millisecond and never saturates, or earns nothing. */
  predicate LosslessRate(p: Params) {
    p.refillPerSec <= 0 || (p.refillPerSec % 1000 == 0 && PlainRate(p))
  }

  lemma WholeStep(p: Params, lastRefill: U32, now: U32)
    requires LosslessRate(p) && Gain(p, lastRefill, now) > 0
    ensures Elapsed(lastRefill, now) * p.refillPerSec == 1000 * Gain(p, lastRefill, now)
  {
    StepGain(p, lastRefill, now);
    var e, k, g := Elapsed(lastRefill, now), p.refillPerSec / 1000, Gain(p, lastRefill, now);
    hide Gain, Elapsed;
    assert e * p.refillPerSec == 1000 * (e * k) by {
      assert p.refillPerSec == 1000 * k;
    }
    DivModUnique(e * p.refillPerSec, 1000, e * k, 0);
    DivModUnique(e * p.refillPerSec, 1000, g, e * p.refillPerSec - 1000 * g);
  }

  lemma {:induction false} LosslessDropsNothing(p: Params, b: Bucket, frames: seq<Frame>)
    requires LosslessRate(p)
    ensures Dropped(p, b, frames) == 0
    decreases |frames|
  {
    hide Gain, Elapsed, CostOf, LosslessRate;
    if frames != [] {
      var now := frames[0].at % U32_LIMIT;
      if Gain(p, b.lastRefill, now) > 0 { WholeStep(p, b.lastRefill, now); }
      LosslessDropsNothing(p, After(p, b, frames[0]), frames[1..]);
    }
  }

  /** How long to wait so that a rate which is not a whole number of tokens per ms drops some. */
  function LossyWait(r: int): int
    requires r > 0
  {
    if r >= 1000 then 1 else 1000 / r + 1
  }

  lemma LossyWaitDrops(r: int)
    requires r > 0 && r % 1000 != 0
    ensures 1 <= LossyWait(r) <= 1001
    ensures LossyWait(r) * r >= 1000 && (LossyWait(r) * r) % 1000 != 0
  {
    if r < 1000 {
      DivModDef(1000, r);
      var q := 1000 / r;
      MulMono(q, 1, r);
      assert (q + 1) * r == r * q + r;
      DivModUnique((q + 1) * r, 1000, 1, (q + 1) * r - 1000);
    }
  }

  /** Some wait after which one frame loses part of what was earned. */
  lemma LossyRun(p: Params) returns (e: int)
    requires !LosslessRate(p)
    ensures 0 <= e <= MAX_ELAPSED_MS && Dropped(p, EMPTY, OneFrame(e)) > 0
  {
    hide Dropped, OneFrame, TruncDiv, Sat;
    var r := p.refillPerSec;
    if r % 1000 != 0 {
      e := LossyWait(r);
      LossyWaitDrops(r);
      hide LossyWait;
    } else {
      e := MAX_ELAPSED_MS;
    }
    OneFrameRun(p, e);
    var x, g := e * r, TruncDiv(Sat(e * r), 1000);
    WholeTokens(x);
    if x == 1000 * g { DivModUnique(x, 1000, g, 0); }
  }

  /** The remainder accumulates instead of being lost exactly when the rate is a whole number of
      tokens per millisecond that does not saturate, or is not positive. */
  lemma RemainderKept(p: Params)
    ensures NeverDrops(p) <==> LosslessRate(p)
  {
    hide Unclamped, Ordered, Watermark, Dropped, OneFrame, LosslessRate;
    if LosslessRate(p) {
      forall b: Bucket, frames, w | Watermark(b, w) && Ordered(w, frames) && Unclamped(p, b, frames, w)
        ensures Dropped(p, b, frames) == 0
      {
        LosslessDropsNothing(p, b, frames);
      }
    } else {
      var e := LossyRun(p);
      OneFrameRun(p, e);
    }
  }

  // ----- tokens

  function Spent(p: Params, frames: seq<Frame>): int {
    if frames == [] then 0 else CostOf(p.costs, frames[0].ev) + Spent(p, frames[1..])
  }

  /** Granted tokens that did not fit under the capacity. */
  function Spilled(p: Params, b: Bucket, frames: seq<Frame>): int
    decreases |frames|
  {
    if frames == [] then 0
    else
      var f := frames[0];
      Max(b.tokens + Max(Gain(p, b.lastRefill, f.at % U32_LIMIT), 0) - p.capacity, 0)
      + Spilled(p, After(p, b, f), frames[1..])
  }

  /** Debt forgotten because the count cannot go below its smallest value. */
  function Forgiven(p: Params, b: Bucket, frames: seq<Frame>): int
    decreases |frames|
  {
    if frames == [] then 0
    else
      var f := frames[0];
      Max(I64_MIN - (Refilled(p, b, f.at % U32_LIMIT).tokens - CostOf(p.costs, f.ev)), 0)
      + Forgiven(p, After(p, b, f), frames[1..])
  }

  /** One frame: the refill stops at the capacity, the debit at the smallest count. */
  lemma LedgerStep(p: Params, b: Bucket, f: Frame)
    requires NeverCredits(p) && b.tokens <= p.capacity
    ensures var r := Refilled(p, b, f.at % U32_LIMIT);
      && b.tokens <= r.tokens
      && r.tokens == Min(b.tokens + Max(Gain(p, b.lastRefill, f.at % U32_LIMIT), 0), p.capacity)
      && After(p, b, f).tokens <= p.capacity
      && After(p, b, f).tokens == Max(I64_MIN, r.tokens - CostOf(p.costs, f.ev))
  {
    assert 0 <= CostOf(p.costs, f.ev);
    hide Gain, CostOf;
  }

  /** Tokens are conserved in every run: what is left is what there was, plus what was granted, minus
      what was spent, minus what spilled over the capacity, plus debt that could not be counted; and
      no debt is forgotten unless the total cost reaches past the smallest count. */
  lemma {:induction false} TokensLedger(p: Params, b: Bucket, frames: seq<Frame>)
    requires NeverCredits(p) && b.tokens <= p.capacity
    ensures Run(p, b, frames).tokens
         == b.tokens + Credited(p, b, frames) - Spilled(p, b, frames) - Spent(p, frames) + Forgiven(p, b, frames)
    ensures 0 <= Spilled(p, b, frames) <= Credited(p, b, frames)
    ensures 0 <= Forgiven(p, b, frames) && 0 <= Spent(p, frames)
    ensures b.tokens - Spent(p, frames) >= I64_MIN ==> Forgiven(p, b, frames) == 0
    decreases |frames|
  {
    if frames != [] {
      LedgerStep(p, b, frames[0]);
      assert 0 <= CostOf(p.costs, frames[0].ev);
      hide Gain, CostOf, NeverCredits, Refilled, After;
      TokensLedger(p, After(p, b, frames[0]), frames[1..]);
    }
  }

  /** The extra token of the window bound is real: here one millisecond earns 0.6 of a token, and
      one more than the capacity is admitted. */
  lemma WindowRateIsSharp(p: Params)
    requires p.capacity == 1 && p.refillPerSec == 600 && CostOf(p.costs, Ordinary) == 1
    ensures var window := [Frame(Ordinary, 1), Frame(Ordinary, 2)];
      && Ordered(0, window)
      && AdmittedCost(p, Bucket(1, 0), window) == 1 + p.capacity
      && LastAt(0, window) - window[0].at == 1
  {
    var window := [Frame(Ordinary, 1), Frame(Ordinary, 2)];
    assert After(p, Bucket(1, 0), window[0]) == Bucket(0, 0);
    assert After(p, Bucket(0, 0), window[1]) == Bucket(0, 2);
    assert window[1..] == [window[1]] && window[1..][1..] == [];
    hide After;
  }
}
