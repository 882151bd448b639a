/** The process-wide byte budget: a load / compare-and-swap / retry protocol on one atomic word,
    run by any number of threads, with leases returned by drop. */
module BufferPool {
  import opened Arith

  const MAX_TRIES: int := 64

  datatype Outcome = Granted | Exhausted(requested: nat, outstanding: nat, total: nat)

  // ----- one call, as its own thread sees it

  predicate FitsIn(total: nat, seen: nat, bytes: nat) {
    seen + bytes <= U64_MAX && seen + bytes <= total
  }

  /** What a call that loaded exactly these values may answer. */
  predicate Explains(total: nat, bytes: nat, seen: seq<nat>, outcome: Outcome) {
    && (forall i :: 0 <= i < |seen| - 1 ==> FitsIn(total, seen[i], bytes))
    && match outcome
       case Granted =>
         if bytes == 0 then seen == []
         else 1 <= |seen| <= 64 && FitsIn(total, seen[|seen| - 1], bytes)
       case Exhausted(requested, outstanding, t) =>
         && requested == bytes > 0 && t == total
         && 1 <= |seen| <= 65 && outstanding == seen[|seen| - 1]
         && (|seen| <= 64 ==> !FitsIn(total, outstanding, bytes))
  }

  /** The retry loop from its k-th try on: what it answers, and how many loads it has then made. */
  function Retry(total: nat, bytes: nat, loads: seq<nat>, wins: seq<bool>, k: nat): (Outcome, nat)
    requires |loads| == MAX_TRIES + 1 && |wins| == MAX_TRIES && k <= MAX_TRIES
    decreases MAX_TRIES - k
  {
    if bytes == 0 then (Granted, 0)
    else if k == MAX_TRIES then (Exhausted(bytes, loads[k], total), k + 1)
    else if !FitsIn(total, loads[k], bytes) then (Exhausted(bytes, loads[k], total), k + 1)
    else if wins[k] then (Granted, k + 1)
    else Retry(total, bytes, loads, wins, k + 1)
  }

  /** The retry loop. The environment supplies what each load returns and whether each swap wins;
      n is how many loads the call made. */
  method TryAcquire(total: nat, bytes: nat, loads: seq<nat>, wins: seq<bool>)
    returns (outcome: Outcome, n: nat)
    requires |loads| == MAX_TRIES + 1 && |wins| == MAX_TRIES
    ensures (outcome, n) == Retry(total, bytes, loads, wins, 0)
    ensures n <= |loads| && Explains(total, bytes, loads[..n], outcome)
    ensures forall i :: 0 <= i < n - 1 ==> !wins[i]
    ensures outcome.Granted? && bytes > 0 ==> wins[n - 1]
  {
    if bytes == 0 {
      return Granted, 0;
    }
    for k := 0 to MAX_TRIES
      invariant forall i :: 0 <= i < k ==> FitsIn(total, loads[i], bytes) && !wins[i]
      invariant Retry(total, bytes, loads, wins, 0) == Retry(total, bytes, loads, wins, k)
    {
      var outstanding := loads[k];
      if outstanding + bytes > U64_MAX {
        return Exhausted(bytes, outstanding, total), k + 1;
      }
      var after := outstanding + bytes;
      if after > total {
        return Exhausted(bytes, outstanding, total), k + 1;
      }
      if wins[k] {
        return Granted, k + 1;
      }
    }
    return Exhausted(bytes, loads[MAX_TRIES], total), MAX_TRIES + 1;
  }

  // ----- all threads together, one atomic access at a time

  /** Where a thread is in its call, with the values its loads have returned so far. */
  datatype Thread =
    | Idle
    | Loading(bytes: nat, seen: seq<nat>)
    | Swapping(bytes: nat, seen: seq<nat>)
    | GivingUp(bytes: nat, seen: seq<nat>)
    | Done(bytes: nat, seen: seq<nat>, outcome: Outcome)

  datatype Pool = Pool(total: nat, outstanding: nat, threads: seq<Thread>, leases: seq<nat>)

  datatype Step =
    | Call(t: nat, bytes: nat)
    | Load(t: nat)
    | Swap(t: nat, spurious: bool)
    | FinalLoad(t: nat)
    | Drop(k: nat)

  predicate Enabled(s: Pool, a: Step) {
    match a
    case Call(t, bytes) =>
      t < |s.threads| && (s.threads[t].Idle? || s.threads[t].Done?) && bytes <= U64_MAX
    case Load(t) => t < |s.threads| && s.threads[t].Loading?
    case Swap(t, _) => t < |s.threads| && s.threads[t].Swapping? && s.threads[t].seen != []
    case FinalLoad(t) => t < |s.threads| && s.threads[t].GivingUp?
    case Drop(k) => k < |s.leases|
  }

  function Last(seen: seq<nat>): nat
    requires seen != []
  {
    seen[|seen| - 1]
  }

  predicate Wins(s: Pool, a: Step)
    requires a.Swap? && Enabled(s, a)
  {
    !a.spurious && s.outstanding == Last(s.threads[a.t].seen)
  }

  function Set(s: Pool, t: nat, th: Thread): Pool
    requires t < |s.threads|
  {
    s.(threads := s.threads[t := th])
  }

  function Apply(s: Pool, a: Step): Pool
    requires Enabled(s, a)
  {
    match a
    case Call(t, bytes) =>
      if bytes == 0 then Set(s.(leases := s.leases + [0]), t, Done(0, [], Granted))
      else Set(s, t, Loading(bytes, []))
    case Load(t) =>
      var Loading(bytes, seen) := s.threads[t];
      var seen' := seen + [s.outstanding];
      if s.outstanding + bytes > U64_MAX || s.outstanding + bytes > s.total
      then Set(s, t, Done(bytes, seen', Exhausted(bytes, s.outstanding, s.total)))
      else Set(s, t, Swapping(bytes, seen'))
    case Swap(t, _) =>
      var Swapping(bytes, seen) := s.threads[t];
      if Wins(s, a)
      then Set(s.(outstanding := Last(seen) + bytes, leases := s.leases + [bytes]),
               t, Done(bytes, seen, Granted))
      else Set(s, t, if |seen| == MAX_TRIES then GivingUp(bytes, seen) else Loading(bytes, seen))
    case FinalLoad(t) =>
      var GivingUp(bytes, seen) := s.threads[t];
      Set(s, t, Done(bytes, seen + [s.outstanding], Exhausted(bytes, s.outstanding, s.total)))
    case Drop(k) =>
      var bytes := s.leases[k];
      s.(outstanding := if bytes > 0 then (s.outstanding - bytes) % (U64_MAX + 1) else s.outstanding,
         leases := s.leases[..k] + s.leases[k + 1..])
  }

  function Sum(leases: seq<nat>): nat {
    if leases == [] then 0 else leases[0] + Sum(leases[1..])
  }

  lemma {:induction false} SumConcat(a: seq<nat>, b: seq<nat>)
    ensures Sum(a + b) == Sum(a) + Sum(b)
  {
    if a == [] {
      assert a + b == b;
    } else {
      assert (a + b)[1..] == a[1..] + b;
      SumConcat(a[1..], b);
    }
  }

  lemma SumRemove(a: seq<nat>, k: nat)
    requires k < |a|
    ensures Sum(a[..k] + a[k + 1..]) + a[k] == Sum(a)
  {
    assert a == a[..k] + a[k..];
    assert a[k..][1..] == a[k + 1..];
    SumConcat(a[..k], a[k..]);
    SumConcat(a[..k], a[k + 1..]);
  }

  // ----- the invariant

  predicate AllFit(total: nat, bytes: nat, seen: seq<nat>) {
    forall i :: 0 <= i < |seen| ==> FitsIn(total, seen[i], bytes)
  }

  predicate ThreadOk(total: nat, th: Thread) {
    match th
    case Idle => true
    case Loading(bytes, seen) => 0 < bytes <= U64_MAX && |seen| < MAX_TRIES && AllFit(total, bytes, seen)
    case Swapping(bytes, seen) =>
      0 < bytes <= U64_MAX && 1 <= |seen| <= MAX_TRIES && AllFit(total, bytes, seen)
    case GivingUp(bytes, seen) =>
      0 < bytes <= U64_MAX && |seen| == MAX_TRIES && AllFit(total, bytes, seen)
    case Done(bytes, seen, outcome) => Explains(total, bytes, seen, outcome)
  }

  /** The word is the sum of the live leases and within the total; every finished call got an
      answer that its own loads explain. */
  predicate Inv(s: Pool) {
    && s.total <= U64_MAX
    && s.outstanding == Sum(s.leases) <= s.total
    && forall t :: 0 <= t < |s.threads| ==> ThreadOk(s.total, s.threads[t])
  }

  predicate Init(s: Pool) {
    && s.total <= U64_MAX && s.outstanding == 0 && s.leases == []
    && forall t :: 0 <= t < |s.threads| ==> s.threads[t].Idle?
  }

  lemma DropKeepsSum(s: Pool, k: nat)
    requires Inv(s) && k < |s.leases|
    ensures s.leases[k] <= s.outstanding
    ensures Apply(s, Drop(k)).outstanding == s.outstanding - s.leases[k]
    ensures Apply(s, Drop(k)).outstanding == Sum(Apply(s, Drop(k)).leases)
  {
    SumRemove(s.leases, k);
    var rest := s.outstanding - s.leases[k];
    DivModUnique(rest, U64_MAX + 1, 0, rest);
  }

  lemma StepThread(s: Pool, a: Step, t: nat)
    requires Inv(s) && Enabled(s, a) && t < |s.threads|
    ensures ThreadOk(s.total, Apply(s, a).threads[t])
  {
    assert ThreadOk(s.total, s.threads[t]);
  }

  lemma StepKeepsInv(s: Pool, a: Step)
    requires Inv(s) && Enabled(s, a)
    ensures Inv(Apply(s, a))
  {
    forall t | 0 <= t < |s.threads|
      ensures ThreadOk(s.total, Apply(s, a).threads[t])
    {
      StepThread(s, a, t);
    }
    match a {
      case Drop(k) => DropKeepsSum(s, k);
      case Call(t, bytes) => SumConcat(s.leases, [0]);
      case Swap(t, _) =>
        assert ThreadOk(s.total, s.threads[t]);
        SumConcat(s.leases, [s.threads[t].bytes]);
      case _ =>
    }
  }

  // ----- every interleaving

  predicate Legal(s: Pool, run: seq<Step>)
    decreases |run|
  {
    run == [] || (Enabled(s, run[0]) && Legal(Apply(s, run[0]), run[1..]))
  }

  function Exec(s: Pool, run: seq<Step>): (r: Pool)
    requires Legal(s, run)
    decreases |run|
  {
    if run == [] then s else Exec(Apply(s, run[0]), run[1..])
  }

  lemma {:induction false} ExecKeepsInv(s: Pool, run: seq<Step>)
    requires Inv(s) && Legal(s, run)
    ensures Inv(Exec(s, run)) && Exec(s, run).total == s.total
    decreases |run|
  {
    hide Inv, Enabled;
    if run != [] {
      StepKeepsInv(s, run[0]);
      ExecKeepsInv(Apply(s, run[0]), run[1..]);
    }
  }

  /** In every interleaving the word is the bytes of the live leases, within the total, and zero
      once all leases are dropped. */
  lemma NeverOverIssued(s: Pool, run: seq<Step>)
    requires Init(s) && Legal(s, run)
    ensures var e := Exec(s, run);
      && e.outstanding == Sum(e.leases) <= s.total
      && (e.leases == [] ==> e.outstanding == 0)
      && forall k :: 0 <= k < |e.leases| ==> e.leases[k] <= e.outstanding
  {
    ExecKeepsInv(s, run);
    var e := Exec(s, run);
    forall k | 0 <= k < |e.leases|
      ensures e.leases[k] <= e.outstanding
    {
      DropKeepsSum(e, k);
    }
  }

  // ----- why a call is refused

  /** Accesses that change the word. */
  predicate Moves(s: Pool, a: Step)
    requires Enabled(s, a)
  {
    (a.Swap? && Wins(s, a)) || (a.Drop? && s.leases[a.k] > 0)
  }

  /** What happened to one thread since its latest call began: swaps it lost, how many of them failed
      spuriously, and how often others changed the word. */
  datatype Tally = Tally(lost: nat, spurious: nat, moves: nat)

  const NOTHING := Tally(0, 0, 0)

  function Tallied(s: Pool, a: Step, t: nat, y: Tally): Tally
    requires Enabled(s, a)
  {
    if a.Call? && a.t == t then NOTHING
    else if a.Swap? && a.t == t then
      if Wins(s, a) then y
      else Tally(y.lost + 1, y.spurious + (if a.spurious then 1 else 0), y.moves)
    else if Moves(s, a) then y.(moves := y.moves + 1)
    else y
  }

  function Contention(s: Pool, run: seq<Step>, t: nat, y: Tally): Tally
    requires Legal(s, run)
    decreases |run|
  {
    if run == [] then y else Contention(Apply(s, run[0]), run[1..], t, Tallied(s, run[0], t, y))
  }

  predicate LostMatches(th: Thread, lost: nat) {
    match th
    case Idle => true
    case Loading(_, seen) => lost == |seen|
    case Swapping(_, seen) => lost == |seen| - 1
    case GivingUp(_, seen) => lost == |seen|
    case Done(bytes, seen, _) => bytes > 0 ==> lost == |seen| - 1
  }

  /** Lost swaps are paid for: each by a spurious failure or a change by someone else, one of them in
      hand while the word differs from what the thread loaded. */
  predicate PaidFor(s: Pool, th: Thread, y: Tally) {
    && y.lost <= y.spurious + y.moves
    && (th.Swapping? && th.seen != [] && s.outstanding != Last(th.seen) ==> y.lost + 1 <= y.spurious + y.moves)
  }

  lemma StepLost(s: Pool, a: Step, t: nat, y: Tally)
    requires Inv(s) && Enabled(s, a) && t < |s.threads| && LostMatches(s.threads[t], y.lost)
    ensures |Apply(s, a).threads| == |s.threads|
    ensures LostMatches(Apply(s, a).threads[t], Tallied(s, a, t, y).lost)
  {
    assert ThreadOk(s.total, s.threads[t]);
  }

  lemma StepPaid(s: Pool, a: Step, t: nat, y: Tally)
    requires Enabled(s, a) && t < |s.threads| && PaidFor(s, s.threads[t], y)
    ensures |Apply(s, a).threads| == |s.threads|
    ensures PaidFor(Apply(s, a), Apply(s, a).threads[t], Tallied(s, a, t, y))
  {
  }

  lemma {:induction false} LossesAreCounted(s: Pool, run: seq<Step>, t: nat, y: Tally)
    requires Inv(s) && Legal(s, run) && t < |s.threads|
    requires LostMatches(s.threads[t], y.lost) && PaidFor(s, s.threads[t], y)
    ensures |Exec(s, run).threads| == |s.threads|
    ensures LostMatches(Exec(s, run).threads[t], Contention(s, run, t, y).lost)
    ensures PaidFor(Exec(s, run), Exec(s, run).threads[t], Contention(s, run, t, y))
    decreases |run|
  {
    if run != [] {
      StepKeepsInv(s, run[0]);
      StepLost(s, run[0], t, y);
      StepPaid(s, run[0], t, y);
      hide Inv, Enabled, Apply, LostMatches, PaidFor, Tallied;
      LossesAreCounted(Apply(s, run[0]), run[1..], t, Tallied(s, run[0], t, y));
    }
  }

  /** A call refused although each of its 64 swaps was tried on a value that left room. */
  predicate GaveUp(th: Thread) {
    th.Done? && th.outcome.Exhausted? && |th.seen| > 64
  }

  /** A refusal means a load that saw too little room, or 64 lost swaps, each of them after a load
      that saw room and each paid for by a spurious failure or by a change of the word. A grant means
      every load saw room. */
  lemma RefusalsAreExplained(s: Pool, run: seq<Step>, t: nat)
    requires Init(s) && Legal(s, run) && t < |s.threads|
    ensures |Exec(s, run).threads| == |s.threads|
    ensures var th := Exec(s, run).threads[t];
      var y := Contention(s, run, t, NOTHING);
      && (th.Done? && th.outcome.Exhausted? ==>
           if GaveUp(th)
           then AllFit(s.total, th.bytes, th.seen[..64]) && 64 == y.lost <= y.spurious + y.moves
           else th.seen != [] && !FitsIn(s.total, Last(th.seen), th.bytes))
      && (th.Done? && th.outcome.Granted? ==> AllFit(s.total, th.bytes, th.seen))
  {
    ExecKeepsInv(s, run);
    LossesAreCounted(s, run, t, NOTHING);
    assert ThreadOk(s.total, Exec(s, run).threads[t]);
    hide Inv, Legal, Exec, Contention;
  }

  // ----- the steps of a thread are the loop

  /** The results of a thread's swaps since its latest call began. */
  function SwapsAfter(s: Pool, a: Step, t: nat, swaps: seq<bool>): seq<bool>
    requires Enabled(s, a)
  {
    if a.Call? && a.t == t then []
    else if a.Swap? && a.t == t then swaps + [Wins(s, a)]
    else swaps
  }

  function SwapsOf(s: Pool, run: seq<Step>, t: nat, swaps: seq<bool>): seq<bool>
    requires Legal(s, run)
    decreases |run|
  {
    if run == [] then swaps else SwapsOf(Apply(s, run[0]), run[1..], t, SwapsAfter(s, run[0], t, swaps))
  }

  predicate AllLost(swaps: seq<bool>) { forall i :: 0 <= i < |swaps| ==> !swaps[i] }

  /** The loop, given these loads and these swap results and whatever would have come after them,
      answers this after exactly these loads. */
  ghost predicate LoopAnswers(total: nat, bytes: nat, seen: seq<nat>, swaps: seq<bool>, outcome: Outcome) {
    forall loads, wins ::
      |loads| == MAX_TRIES + 1 && |wins| == MAX_TRIES && seen <= loads && swaps <= wins
      ==> Retry(total, bytes, loads, wins, 0) == (outcome, |seen|)
  }

  /** Where a thread is, in terms of the loop. */
  ghost predicate InLoop(total: nat, th: Thread, swaps: seq<bool>) {
    match th
    case Idle => true
    case Loading(bytes, seen) =>
      bytes > 0 && |swaps| == |seen| < MAX_TRIES && AllLost(swaps) && AllFit(total, bytes, seen)
    case Swapping(bytes, seen) =>
      bytes > 0 && |swaps| + 1 == |seen| <= MAX_TRIES && AllLost(swaps) && AllFit(total, bytes, seen)
    case GivingUp(bytes, seen) =>
      bytes > 0 && |swaps| == |seen| == MAX_TRIES && AllLost(swaps) && AllFit(total, bytes, seen)
    case Done(bytes, seen, outcome) => LoopAnswers(total, bytes, seen, swaps, outcome)
  }

  lemma {:induction false} TriesSkipped(total: nat, bytes: nat, loads: seq<nat>, wins: seq<bool>, k: nat)
    requires |loads| == MAX_TRIES + 1 && |wins| == MAX_TRIES && k <= MAX_TRIES && bytes > 0
    requires forall i :: 0 <= i < k ==> FitsIn(total, loads[i], bytes) && !wins[i]
    ensures Retry(total, bytes, loads, wins, 0) == Retry(total, bytes, loads, wins, k)
  {
    if k > 0 { TriesSkipped(total, bytes, loads, wins, k - 1); }
  }

  /** A load that leaves no room, or the last one, ends the loop. */
  lemma RefusedByLoad(total: nat, bytes: nat, seen: seq<nat>, swaps: seq<bool>, value: nat)
    requires bytes > 0 && |swaps| == |seen| <= MAX_TRIES && AllLost(swaps) && AllFit(total, bytes, seen)
    requires |seen| == MAX_TRIES || !FitsIn(total, value, bytes)
    ensures LoopAnswers(total, bytes, seen + [value], swaps, Exhausted(bytes, value, total))
  {
    forall loads, wins | |loads| == MAX_TRIES + 1 && |wins| == MAX_TRIES && seen + [value] <= loads && swaps <= wins
      ensures Retry(total, bytes, loads, wins, 0) == (Exhausted(bytes, value, total), |seen + [value]|)
    {
      assert loads[|seen|] == (seen + [value])[|seen|];
      forall i | 0 <= i < |seen| ensures FitsIn(total, loads[i], bytes) && !wins[i] {
        assert loads[i] == (seen + [value])[i] && wins[i] == swaps[i];
      }
      TriesSkipped(total, bytes, loads, wins, |seen|);
      hide FitsIn;
    }
  }

  /** A swap that wins ends the loop with a grant. */
  lemma GrantedBySwap(total: nat, bytes: nat, seen: seq<nat>, swaps: seq<bool>)
    requires bytes > 0 && |swaps| + 1 == |seen| <= MAX_TRIES && AllLost(swaps) && AllFit(total, bytes, seen)
    ensures LoopAnswers(total, bytes, seen, swaps + [true], Granted)
  {
    forall loads, wins | |loads| == MAX_TRIES + 1 && |wins| == MAX_TRIES && seen <= loads && swaps + [true] <= wins
      ensures Retry(total, bytes, loads, wins, 0) == (Granted, |seen|)
    {
      var k := |swaps|;
      assert wins[k] == (swaps + [true])[k];
      forall i | 0 <= i < |seen| ensures FitsIn(total, loads[i], bytes) { assert loads[i] == seen[i]; }
      forall i | 0 <= i < k ensures !wins[i] { assert wins[i] == (swaps + [true])[i] == swaps[i]; }
      TriesSkipped(total, bytes, loads, wins, k);
      hide FitsIn;
    }
  }

  lemma OwnStepInLoop(s: Pool, a: Step, t: nat, swaps: seq<bool>)
    requires Enabled(s, a) && t < |s.threads| && InLoop(s.total, s.threads[t], swaps) && !a.Drop? && a.t == t
    ensures InLoop(s.total, Apply(s, a).threads[t], SwapsAfter(s, a, t, swaps))
  {
    var th := s.threads[t];
    match a {
      case Call(_, _) =>
      case Load(_) =>
        if !FitsIn(s.total, s.outstanding, th.bytes) {
          RefusedByLoad(s.total, th.bytes, th.seen, swaps, s.outstanding);
        }
      case Swap(_, _) =>
        if Wins(s, a) { GrantedBySwap(s.total, th.bytes, th.seen, swaps); }
      case FinalLoad(_) => RefusedByLoad(s.total, th.bytes, th.seen, swaps, s.outstanding);
    }
    hide LoopAnswers;
    if a.Call? { FreeIsGranted(s.total); }
  }

  lemma FreeIsGranted(total: nat)
    ensures LoopAnswers(total, 0, [], [], Granted)
  {
  }

  lemma {:induction false} ThreadsFollowTheLoop(s: Pool, run: seq<Step>, t: nat, swaps: seq<bool>)
    requires Legal(s, run) && t < |s.threads| && InLoop(s.total, s.threads[t], swaps)
    ensures |Exec(s, run).threads| == |s.threads| && Exec(s, run).total == s.total
    ensures InLoop(s.total, Exec(s, run).threads[t], SwapsOf(s, run, t, swaps))
    decreases |run|
  {
    if run != [] {
      var a := run[0];
      if !a.Drop? && a.t == t {
        OwnStepInLoop(s, a, t, swaps);
      } else {
        assert Apply(s, a).threads[t] == s.threads[t];
      }
      assert |Apply(s, a).threads| == |s.threads| && Apply(s, a).total == s.total;
      hide InLoop, Enabled, Apply;
      ThreadsFollowTheLoop(Apply(s, a), run[1..], t, SwapsAfter(s, a, t, swaps));
    }
  }

  /** In every interleaving a finished call has been answered as the loop answers, given the values it
      loaded and the swaps it lost or won. */
  lemma FinishedAsTheLoop(s: Pool, run: seq<Step>, t: nat)
    requires Init(s) && Legal(s, run) && t < |s.threads|
    ensures |Exec(s, run).threads| == |s.threads|
    ensures var th := Exec(s, run).threads[t];
      th.Done? ==> LoopAnswers(s.total, th.bytes, th.seen, SwapsOf(s, run, t, []), th.outcome)
  {
    ThreadsFollowTheLoop(s, run, t, []);
    hide Legal, Exec, SwapsOf, LoopAnswers;
  }

  // ----- how many races a refusal takes

  lemma RunCons(s: Pool, a: Step, rest: seq<Step>, t: nat, y: Tally)
    requires Enabled(s, a) && Legal(Apply(s, a), rest)
    ensures Legal(s, [a] + rest) && Exec(s, [a] + rest) == Exec(Apply(s, a), rest)
    ensures Contention(s, [a] + rest, t, y) == Contention(Apply(s, a), rest, t, Tallied(s, a, t, y))
  {
    assert ([a] + rest)[1..] == rest;
  }

  /** Thread 0 loses n swaps, the first k of them spuriously and the others to thread 1. */
  function Contest(n: nat, k: nat): seq<Step> {
    if n == 0 then [FinalLoad(0)] + []
    else if k > 0 then [Load(0)] + ([Swap(0, true)] + Contest(n - 1, k - 1))
    else [Load(0)] + ([Call(1, 1)] + ([Load(1)] + ([Swap(1, false)] + ([Swap(0, false)] + Contest(n - 1, 0)))))
  }

  predicate Contesting(s: Pool, n: nat) {
    && n <= MAX_TRIES
    && s.outstanding + n + 1 <= s.total <= U64_MAX
    && |s.threads| == 2
    && (s.threads[1].Idle? || s.threads[1].Done?)
    && (if n == 0 then s.threads[0].GivingUp? else s.threads[0].Loading?)
    && s.threads[0].bytes == 1 && |s.threads[0].seen| == MAX_TRIES - n
  }

  lemma SpuriousRound(s: Pool, n: nat, y: Tally) returns (s': Pool)
    requires n > 0 && Contesting(s, n)
    ensures Contesting(s', n - 1)
    ensures forall rest :: Legal(s', rest) ==>
      var run := [Load(0)] + ([Swap(0, true)] + rest);
      && Legal(s, run) && Exec(s, run) == Exec(s', rest)
      && Contention(s, run, 0, y) == Contention(s', rest, 0, Tally(y.lost + 1, y.spurious + 1, y.moves))
  {
    var s1 := Apply(s, Load(0));
    s' := Apply(s1, Swap(0, true));
    hide Exec, Legal, Contention;
    forall rest | Legal(s', rest)
      ensures var run := [Load(0)] + ([Swap(0, true)] + rest);
        && Legal(s, run) && Exec(s, run) == Exec(s', rest)
        && Contention(s, run, 0, y) == Contention(s', rest, 0, Tally(y.lost + 1, y.spurious + 1, y.moves))
    {
      RunCons(s1, Swap(0, true), rest, 0, y);
      RunCons(s, Load(0), [Swap(0, true)] + rest, 0, y);
    }
  }

  /** Thread 1 takes a byte between thread 0's load and its swap. */
  lemma LostRound(s: Pool, n: nat, y: Tally) returns (s': Pool)
    requires n > 0 && Contesting(s, n)
    ensures Contesting(s', n - 1)
    ensures forall rest :: Legal(s', rest) ==>
      var run := [Load(0)] + ([Call(1, 1)] + ([Load(1)] + ([Swap(1, false)] + ([Swap(0, false)] + rest))));
      && Legal(s, run) && Exec(s, run) == Exec(s', rest)
      && Contention(s, run, 0, y) == Contention(s', rest, 0, Tally(y.lost + 1, y.spurious, y.moves + 1))
  {
    var s1 := Apply(s, Load(0));
    var s2 := Apply(s1, Call(1, 1));
    var s3 := Apply(s2, Load(1));
    var s4 := Apply(s3, Swap(1, false));
    s' := Apply(s4, Swap(0, false));
    var y1 := y.(moves := y.moves + 1);
    assert Tallied(s3, Swap(1, false), 0, y) == y1;
    assert Tallied(s4, Swap(0, false), 0, y1) == Tally(y.lost + 1, y.spurious, y.moves + 1);
    hide Exec, Legal, Contention;
    forall rest | Legal(s', rest)
      ensures var run := [Load(0)] + ([Call(1, 1)] + ([Load(1)] + ([Swap(1, false)] + ([Swap(0, false)] + rest))));
        && Legal(s, run) && Exec(s, run) == Exec(s', rest)
        && Contention(s, run, 0, y) == Contention(s', rest, 0, Tally(y.lost + 1, y.spurious, y.moves + 1))
    {
      var r4 := [Swap(0, false)] + rest;
      RunCons(s4, Swap(0, false), rest, 0, y1);
      RunCons(s3, Swap(1, false), r4, 0, y);
      RunCons(s2, Load(1), [Swap(1, false)] + r4, 0, y);
      RunCons(s1, Call(1, 1), [Load(1)] + ([Swap(1, false)] + r4), 0, y);
      RunCons(s, Load(0), [Call(1, 1)] + ([Load(1)] + ([Swap(1, false)] + r4)), 0, y);
    }
  }

  lemma LastLoad(s: Pool, y: Tally)
    requires Contesting(s, 0)
    ensures Legal(s, [FinalLoad(0)] + [])
    ensures var e := Exec(s, [FinalLoad(0)] + []);
      |e.threads| == 2 && GaveUp(e.threads[0])
    ensures Contention(s, [FinalLoad(0)] + [], 0, y) == y
  {
    RunCons(s, FinalLoad(0), [], 0, y);
  }

  lemma {:induction false} ContestRefuses(s: Pool, n: nat, k: nat, y: Tally)
    requires Contesting(s, n) && k <= n
    ensures Legal(s, Contest(n, k)) && |Exec(s, Contest(n, k)).threads| == 2
    ensures GaveUp(Exec(s, Contest(n, k)).threads[0])
    ensures Contention(s, Contest(n, k), 0, y) == Tally(y.lost + n, y.spurious + k, y.moves + n - k)
    decreases n
  {
    hide Contesting, Exec, Legal, Contention, GaveUp;
    if n == 0 {
      LastLoad(s, y);
    } else if k > 0 {
      var s' := SpuriousRound(s, n, y);
      ContestRefuses(s', n - 1, k - 1, Tally(y.lost + 1, y.spurious + 1, y.moves));
    } else {
      var s' := LostRound(s, n, y);
      ContestRefuses(s', n - 1, 0, Tally(y.lost + 1, y.spurious, y.moves + 1));
    }
  }

  const ARENA := Pool(100, 0, [Idle, Idle], [])

  lemma ContestFromStart(k: nat)
    requires k <= MAX_TRIES
    ensures var run := [Call(0, 1)] + Contest(MAX_TRIES, k);
      && Legal(ARENA, run) && |Exec(ARENA, run).threads| == 2 && GaveUp(Exec(ARENA, run).threads[0])
      && Contention(ARENA, run, 0, NOTHING) == Tally(MAX_TRIES, k, MAX_TRIES - k)
  {
    var s := Apply(ARENA, Call(0, 1));
    assert Contesting(s, MAX_TRIES);
    assert Tallied(ARENA, Call(0, 1), 0, NOTHING) == NOTHING;
    hide Contesting, Exec, Legal, Contention, GaveUp, Contest;
    ContestRefuses(s, MAX_TRIES, k, NOTHING);
    RunCons(ARENA, Call(0, 1), Contest(MAX_TRIES, k), 0, NOTHING);
  }

  /** A thread gave up in this run after at most b spurious failures. */
  ghost predicate GaveUpWithin(b: nat, s: Pool, run: seq<Step>, t: nat) {
    && Init(s) && Legal(s, run) && t < |s.threads| == |Exec(s, run).threads|
    && GaveUp(Exec(s, run).threads[t])
    && Contention(s, run, t, NOTHING).spurious <= b
  }

  /** If a call can suffer at most b spurious failures, giving up takes m changes of the word by others
      exactly when m is at most 64 - b. So "lost 64 races" holds exactly for swaps that never fail
      spuriously. */
  lemma RacesBehindARefusal(b: nat, m: nat)
    requires b <= 64
    ensures (forall s, run, t :: GaveUpWithin(b, s, run, t) ==> Contention(s, run, t, NOTHING).moves >= m)
       <==> m + b <= 64
  {
    if m + b <= MAX_TRIES {
      forall s, run, t | GaveUpWithin(b, s, run, t) ensures Contention(s, run, t, NOTHING).moves >= m {
        RefusalsAreExplained(s, run, t);
      }
    } else {
      hide Contest, Legal, Exec, Contention, GaveUp;
      ContestFromStart(b);
      assert GaveUpWithin(b, ARENA, [Call(0, 1)] + Contest(MAX_TRIES, b), 0);
    }
  }

  function Spurious(n: nat): seq<Step> {
    if n == 0 then [FinalLoad(0)] else [Load(0), Swap(0, true)] + Spurious(n - 1)
  }

  /** One thread alone on an empty pool is refused when its weak swaps all fail spuriously. */
  lemma {:induction false} RefusedAlone(s: Pool, n: nat)
    requires s.outstanding == 0 && |s.threads| == 1 && n <= MAX_TRIES
    requires var th := s.threads[0];
      && (th.GivingUp? || th.Loading?)
      && 0 < th.bytes <= s.total <= U64_MAX && |th.seen| == MAX_TRIES - n
      && (if n == 0 then th.GivingUp? else th.Loading?)
    ensures Legal(s, Spurious(n)) && |Exec(s, Spurious(n)).threads| == 1
    ensures var th := Exec(s, Spurious(n)).threads[0];
      th.Done? && th.outcome == Exhausted(s.threads[0].bytes, 0, s.total)
    decreases n
  {
    var run := Spurious(n);
    if n == 0 {
      assert run[1..] == [];
    } else {
      var s1 := Apply(s, Load(0));
      var s2 := Apply(s1, Swap(0, true));
      assert run[1..] == [Swap(0, true)] + Spurious(n - 1) && run[1..][1..] == Spurious(n - 1);
      RefusedAlone(s2, n - 1);
    }
  }

  predicate Undisturbed(s: Pool, run: seq<Step>, t: nat)
    requires Legal(s, run)
    decreases |run|
  {
    run != [] ==>
      && !Moves(s, run[0])
      && (run[0].Drop? || run[0].t != t)
      && Undisturbed(Apply(s, run[0]), run[1..], t)
  }

  /** Without interference a swap that does not fail spuriously wins: a genuine loss means some
      other access changed the word in between. */
  lemma {:induction false} UndisturbedSwapWins(s: Pool, run: seq<Step>, t: nat)
    requires Legal(s, run) && Undisturbed(s, run, t) && t < |s.threads|
    requires Enabled(s, Swap(t, false)) && s.outstanding == Last(s.threads[t].seen)
    ensures Enabled(Exec(s, run), Swap(t, false)) && Wins(Exec(s, run), Swap(t, false))
    decreases |run|
  {
    if run != [] {
      UndisturbedSwapWins(Apply(s, run[0]), run[1..], t);
    }
  }

  // ----- the same budget with indivisible operations

  datatype Atomic = Skip | Acquire(bytes: nat) | Release(bytes: nat)

  /** An indivisible budget over the leases held. */
  datatype Budget = Budget(total: nat, held: multiset<nat>, sum: int)

  /** Acquiring needs room at that very instant; only a held lease can be returned. */
  predicate Allowed(b: Budget, op: Atomic) {
    match op
    case Skip => true
    case Acquire(bytes) => b.sum + bytes <= b.total
    case Release(bytes) => bytes in b.held
  }

  function Perform(b: Budget, op: Atomic): Budget {
    match op
    case Skip => b
    case Acquire(bytes) => b.(held := b.held + multiset{bytes}, sum := b.sum + bytes)
    case Release(bytes) => b.(held := b.held - multiset{bytes}, sum := b.sum - bytes)
  }

  /** The indivisible budget keeps within its total. */
  lemma AllowedKeepsTotal(b: Budget, op: Atomic)
    requires b.sum <= b.total && Allowed(b, op)
    ensures Perform(b, op).sum <= Perform(b, op).total == b.total
  {
  }

  function View(s: Pool): Budget { Budget(s.total, multiset(s.leases), Sum(s.leases)) }

  /** Where each operation takes effect: a grant at its winning swap, a return at its drop. */
  function AtomicOf(s: Pool, a: Step): Atomic
    requires Enabled(s, a)
  {
    match a
    case Call(_, bytes) => if bytes == 0 then Acquire(0) else Skip
    case Swap(t, _) => if Wins(s, a) then Acquire(s.threads[t].bytes) else Skip
    case Drop(k) => Release(s.leases[k])
    case _ => Skip
  }

  lemma AcquireIsAtomic(leases: seq<nat>, b: nat)
    ensures multiset(leases + [b]) == multiset(leases) + multiset{b} && Sum(leases + [b]) == Sum(leases) + b
  {
    SumConcat(leases, [b]);
    assert Sum([b]) == b;
  }

  lemma ReleaseIsAtomic(leases: seq<nat>, k: nat)
    requires k < |leases|
    ensures var rest := leases[..k] + leases[k + 1..];
      && leases[k] in multiset(leases)
      && multiset(rest) == multiset(leases) - multiset{leases[k]} && Sum(rest) == Sum(leases) - leases[k]
  {
    SumRemove(leases, k);
    assert leases == leases[..k] + [leases[k]] + leases[k + 1..];
  }

  lemma WinFits(s: Pool, a: Step)
    requires Inv(s) && a.Swap? && Enabled(s, a) && Wins(s, a)
    ensures s.outstanding + s.threads[a.t].bytes <= s.total
  {
    var th := s.threads[a.t];
    assert ThreadOk(s.total, th);
    assert FitsIn(s.total, Last(th.seen), th.bytes);
  }

  /** The view after an access, by what it does to the leases. */
  predicate Refines(s: Pool, op: Atomic, leases: seq<nat>) {
    Allowed(View(s), op) && Perform(View(s), op) == Budget(s.total, multiset(leases), Sum(leases))
  }

  lemma SwapRefines(s: Pool, a: Step)
    requires Inv(s) && Enabled(s, a) && a.Swap? && Wins(s, a)
    ensures Refines(s, Acquire(s.threads[a.t].bytes), s.leases + [s.threads[a.t].bytes])
  {
    WinFits(s, a);
    AcquireIsAtomic(s.leases, s.threads[a.t].bytes);
    assert s.outstanding == Sum(s.leases);
    hide Sum, ThreadOk, Apply;
  }

  lemma ZeroRefines(s: Pool)
    requires Inv(s)
    ensures Refines(s, Acquire(0), s.leases + [0])
  {
    AcquireIsAtomic(s.leases, 0);
    hide Sum, ThreadOk;
  }

  lemma DropRefines(s: Pool, k: nat)
    requires k < |s.leases|
    ensures Refines(s, Release(s.leases[k]), s.leases[..k] + s.leases[k + 1..])
  {
    ReleaseIsAtomic(s.leases, k);
    hide Sum;
  }

  /** Each access of the protocol is one step of the indivisible budget, or changes nothing in it. */
  lemma StepRefinesAtomic(s: Pool, a: Step)
    requires Inv(s) && Enabled(s, a)
    ensures Allowed(View(s), AtomicOf(s, a)) && Perform(View(s), AtomicOf(s, a)) == View(Apply(s, a))
  {
    match a {
      case Call(_, bytes) => if bytes == 0 { ZeroRefines(s); }
      case Swap(_, _) => if Wins(s, a) { SwapRefines(s, a); }
      case Drop(k) => DropRefines(s, k);
      case _ =>
    }
    hide Inv, Sum, Perform, Allowed;
    assert AtomicOf(s, a).Skip? || Refines(s, AtomicOf(s, a), Apply(s, a).leases);
    SkipRefines(s);
  }

  lemma SkipRefines(s: Pool)
    ensures Allowed(View(s), Skip) && Perform(View(s), Skip) == View(s)
  {
  }

  predicate AllAllowed(b: Budget, ops: seq<Atomic>)
    decreases |ops|
  {
    ops != [] ==> Allowed(b, ops[0]) && AllAllowed(Perform(b, ops[0]), ops[1..])
  }

  function PerformAll(b: Budget, ops: seq<Atomic>): Budget
    decreases |ops|
  {
    if ops == [] then b else PerformAll(Perform(b, ops[0]), ops[1..])
  }

  function OpsOf(s: Pool, run: seq<Step>): (ops: seq<Atomic>)
    requires Legal(s, run)
    ensures |ops| == |run|
    decreases |run|
  {
    if run == [] then [] else [AtomicOf(s, run[0])] + OpsOf(Apply(s, run[0]), run[1..])
  }

  /** Every interleaving is a run of the indivisible budget, access by access. */
  lemma {:induction false} RunRefinesAtomic(s: Pool, run: seq<Step>)
    requires Inv(s) && Legal(s, run)
    ensures AllAllowed(View(s), OpsOf(s, run)) && PerformAll(View(s), OpsOf(s, run)) == View(Exec(s, run))
    decreases |run|
  {
    if run != [] {
      StepRefinesAtomic(s, run[0]);
      StepKeepsInv(s, run[0]);
      RunRefinesAtomic(Apply(s, run[0]), run[1..]);
      assert OpsOf(s, run)[1..] == OpsOf(Apply(s, run[0]), run[1..]);
      hide Inv, Enabled, Apply, View, Allowed, Perform, AtomicOf;
    }
  }
}
