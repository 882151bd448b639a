/** Draining a child's output streams into buffers under one shared byte cap. */
module CappedDrain {
  import opened Arith

  const CHUNK: int := 4096

  /** A drain thread's position in its loop. */
  datatype At = Top | Reading | Adding(n: nat) | Flagging | Exited(flagged: bool)

  datatype Drainer = Drainer(source: seq<int>, buf: seq<int>, at: At)

  datatype State = State(cap: nat, combined: nat, exceeded: bool, drainers: seq<Drainer>)

  /** One access to the shared flag, counter or buffer by thread t; Read(t, 0) is end of input or a
      read error. */
  datatype Step = Check(t: nat) | Read(t: nat, n: nat) | Add(t: nat) | Flag(t: nat)

  predicate Enabled(s: State, a: Step) {
    && a.t < |s.drainers|
    && var d := s.drainers[a.t];
       match a
       case Check(_) => d.at.Top?
       case Read(_, n) => d.at.Reading? && n <= CHUNK && |d.buf| + n <= |d.source|
       case Add(_) => d.at.Adding?
       case Flag(_) => d.at.Flagging?
  }

  function Move(d: Drainer, at: At): Drainer { d.(at := at) }

  function Put(s: State, t: nat, d: Drainer): State
    requires t < |s.drainers|
  {
    s.(drainers := s.drainers[t := d])
  }

  function Apply(s: State, a: Step): State
    requires Enabled(s, a)
  {
    var d := s.drainers[a.t];
    match a
    case Check(t) => Put(s, t, Move(d, if s.exceeded then Exited(false) else Reading))
    case Read(t, n) =>
      if n == 0 then Put(s, t, Move(d, Exited(false)))
      else Put(s, t, Drainer(d.source, d.buf + d.source[|d.buf|..|d.buf| + n], Adding(n)))
    case Add(t) =>
      var total := (s.combined + d.at.n) % (U64_MAX + 1);
      Put(s.(combined := total), t, Move(d, if total > s.cap then Flagging else Top))
    case Flag(t) => Put(s.(exceeded := true), t, Move(d, Exited(true)))
  }

  // ----- totals over the threads

  function Sum(f: Drainer -> nat, ds: seq<Drainer>): nat {
    if ds == [] then 0 else f(ds[0]) + Sum(f, ds[1..])
  }

  lemma {:induction false} SumUpdate(f: Drainer -> nat, ds: seq<Drainer>, t: nat, d: Drainer)
    requires t < |ds|
    ensures Sum(f, ds[t := d]) + f(ds[t]) == Sum(f, ds) + f(d)
  {
    if t == 0 {
      assert ds[t := d][1..] == ds[1..];
    } else {
      assert ds[t := d][1..] == ds[1..][t - 1 := d];
      SumUpdate(f, ds[1..], t - 1, d);
    }
  }

  function Size(d: Drainer): nat { |d.buf| }

  function Pending(d: Drainer): nat { if d.at.Adding? then d.at.n else 0 }

  /** Whether the thread has seen an over-cap total. */
  function Over(d: Drainer): nat { if d.at.Flagging? || d.at == Exited(true) then 1 else 0 }

  function Flagged(d: Drainer): nat { if d.at == Exited(true) then 1 else 0 }

  function Supply(d: Drainer): nat { |d.source| }

  function Buffered(s: State): nat { Sum(Size, s.drainers) }

  predicate DrainerOk(d: Drainer) {
    && d.buf <= d.source
    && (d.at.Adding? ==> 1 <= d.at.n <= CHUNK)
  }

  predicate AllOk(s: State) {
    forall t :: 0 <= t < |s.drainers| ==> DrainerOk(s.drainers[t])
  }

  /** The shared counter and flag against the threads' own progress. */
  predicate Counts(s: State) {
    && s.combined + Sum(Pending, s.drainers) == Buffered(s)
    && s.combined <= s.cap + CHUNK * Sum(Over, s.drainers)
    && (s.combined > s.cap <==> Sum(Over, s.drainers) >= 1)
    && (s.exceeded <==> Sum(Flagged, s.drainers) >= 1)
  }

  /** A 64-bit counter suffices: for the cap and one chunk a thread, or for all the streams deliver. */
  predicate Countable(s: State) {
    s.cap + CHUNK * |s.drainers| <= U64_MAX || Sum(Supply, s.drainers) <= U64_MAX
  }

  predicate Inv(s: State) {
    Countable(s) && AllOk(s) && Counts(s)
  }

  predicate Init(s: State) {
    && Countable(s)
    && s.combined == 0 && !s.exceeded
    && forall t :: 0 <= t < |s.drainers| ==> s.drainers[t].buf == [] && s.drainers[t].at.Top?
  }

  lemma {:induction false} SumZero(f: Drainer -> nat, ds: seq<Drainer>)
    requires forall t :: 0 <= t < |ds| ==> f(ds[t]) == 0
    ensures Sum(f, ds) == 0
  {
    if ds != [] { SumZero(f, ds[1..]); }
  }

  lemma InitInv(s: State)
    requires Init(s)
    ensures Inv(s)
  {
    SumZero(Size, s.drainers);
    SumZero(Pending, s.drainers);
    SumZero(Over, s.drainers);
    SumZero(Flagged, s.drainers);
  }

  /** A thread holds at most one chunk beyond the cap: waiting to be added, or added over the cap. */
  lemma {:induction false} OneChunkEach(ds: seq<Drainer>)
    requires forall t :: 0 <= t < |ds| ==> DrainerOk(ds[t])
    ensures CHUNK * Sum(Over, ds) + Sum(Pending, ds) <= CHUNK * |ds|
  {
    if ds != [] {
      assert DrainerOk(ds[0]);
      OneChunkEach(ds[1..]);
    }
  }

  lemma BufferedBound(s: State)
    requires Inv(s)
    ensures Buffered(s) <= s.cap + CHUNK * |s.drainers|
  {
    OneChunkEach(s.drainers);
  }

  lemma {:induction false} HeldIsSupplied(ds: seq<Drainer>)
    requires forall t :: 0 <= t < |ds| ==> DrainerOk(ds[t])
    ensures Sum(Size, ds) <= Sum(Supply, ds)
  {
    if ds != [] {
      assert DrainerOk(ds[0]);
      HeldIsSupplied(ds[1..]);
    }
  }

  lemma SumsAfter(s: State, t: nat, d: Drainer)
    requires t < |s.drainers|
    ensures var ds := s.drainers[t := d];
      && Sum(Size, ds) + Size(s.drainers[t]) == Sum(Size, s.drainers) + Size(d)
      && Sum(Pending, ds) + Pending(s.drainers[t]) == Sum(Pending, s.drainers) + Pending(d)
      && Sum(Over, ds) + Over(s.drainers[t]) == Sum(Over, s.drainers) + Over(d)
      && Sum(Flagged, ds) + Flagged(s.drainers[t]) == Sum(Flagged, s.drainers) + Flagged(d)
  {
    SumUpdate(Size, s.drainers, t, d);
    SumUpdate(Pending, s.drainers, t, d);
    SumUpdate(Over, s.drainers, t, d);
    SumUpdate(Flagged, s.drainers, t, d);
  }

  lemma {:induction false} SumHas(f: Drainer -> nat, ds: seq<Drainer>, t: nat)
    requires t < |ds|
    ensures f(ds[t]) <= Sum(f, ds)
  {
    if t > 0 { SumHas(f, ds[1..], t - 1); }
  }

  lemma StepKeepsOk(s: State, a: Step)
    requires AllOk(s) && Enabled(s, a)
    ensures AllOk(Apply(s, a))
  {
    assert DrainerOk(s.drainers[a.t]);
  }

  lemma CheckCounts(s: State, a: Step)
    requires Inv(s) && Enabled(s, a) && (a.Check? || a.Read?)
    ensures Counts(Apply(s, a))
  {
    SumsAfter(s, a.t, Apply(s, a).drainers[a.t]);
    hide Sum;
  }

  lemma AddCounts(s: State, a: Step)
    requires Inv(s) && Enabled(s, a) && a.Add?
    ensures Counts(Apply(s, a))
  {
    SumsAfter(s, a.t, Apply(s, a).drainers[a.t]);
    SumHas(Pending, s.drainers, a.t);
    BufferedBound(s);
    HeldIsSupplied(s.drainers);
    hide Sum;
    assert DrainerOk(s.drainers[a.t]);
    var total := s.combined + s.drainers[a.t].at.n;
    DivModUnique(total, U64_MAX + 1, 0, total);
  }

  lemma FlagCounts(s: State, a: Step)
    requires Inv(s) && Enabled(s, a) && a.Flag?
    ensures Counts(Apply(s, a))
  {
    SumsAfter(s, a.t, Apply(s, a).drainers[a.t]);
    hide Sum;
  }

  lemma StepKeepsInv(s: State, a: Step)
    requires Inv(s) && Enabled(s, a)
    ensures Inv(Apply(s, a))
    ensures Apply(s, a).cap == s.cap && |Apply(s, a).drainers| == |s.drainers|
  {
    StepKeepsOk(s, a);
    SumUpdate(Supply, s.drainers, a.t, Apply(s, a).drainers[a.t]);
    match a {
      case Add(_) => AddCounts(s, a);
      case Flag(_) => FlagCounts(s, a);
      case _ => CheckCounts(s, a);
    }
    hide Counts, AllOk, Sum;
  }

  // ----- every interleaving

  predicate Legal(s: State, run: seq<Step>)
    decreases |run|
  {
    run == [] || (Enabled(s, run[0]) && Legal(Apply(s, run[0]), run[1..]))
  }

  function Exec(s: State, run: seq<Step>): (r: State)
    requires Legal(s, run)
    decreases |run|
  {
    if run == [] then s else Exec(Apply(s, run[0]), run[1..])
  }

  lemma {:induction false} ExecKeepsInv(s: State, run: seq<Step>)
    requires Inv(s) && Legal(s, run)
    ensures Inv(Exec(s, run))
    ensures Exec(s, run).cap == s.cap && |Exec(s, run).drainers| == |s.drainers|
    decreases |run|
  {
    hide Inv, Enabled;
    if run != [] {
      StepKeepsInv(s, run[0]);
      ExecKeepsInv(Apply(s, run[0]), run[1..]);
    }
  }

  /** At every moment the threads hold at most the cap plus one chunk each, and what each holds is
      what its stream delivered. */
  lemma BoundedOvershoot(s: State, run: seq<Step>)
    requires Init(s) && Legal(s, run)
    ensures var e := Exec(s, run);
      && Buffered(e) <= s.cap + 4096 * |s.drainers|
      && forall t :: 0 <= t < |e.drainers| ==> e.drainers[t].buf <= e.drainers[t].source
  {
    InitInv(s);
    ExecKeepsInv(s, run);
    var e := Exec(s, run);
    BufferedBound(e);
    forall t | 0 <= t < |e.drainers|
      ensures e.drainers[t].buf <= e.drainers[t].source
    {
      assert DrainerOk(e.drainers[t]);
    }
  }

  predicate Finished(s: State) {
    forall t :: 0 <= t < |s.drainers| ==> s.drainers[t].at.Exited?
  }

  lemma {:induction false} ExitedSums(ds: seq<Drainer>)
    requires forall t :: 0 <= t < |ds| ==> ds[t].at.Exited?
    ensures Sum(Pending, ds) == 0 && Sum(Over, ds) == Sum(Flagged, ds)
  {
    if ds != [] {
      assert ds[0].at.Exited?;
      ExitedSums(ds[1..]);
    }
  }

  /** Once every thread has exited, the flag says exactly whether more than the cap was buffered. */
  lemma FlagIsExact(s: State, run: seq<Step>)
    requires Init(s) && Legal(s, run) && Finished(Exec(s, run))
    ensures Exec(s, run).exceeded <==> Buffered(Exec(s, run)) > s.cap
  {
    InitInv(s);
    ExecKeepsInv(s, run);
    ExitedSums(Exec(s, run).drainers);
  }

  // ----- the bound is reached

  /** What thread t of n reads at the end: a chunk, or for the last thread a given number of bytes. */
  function Share(t: nat, n: nat, last: nat): nat { if t + 1 == n then last else CHUNK }

  /** From thread t on, each thread passes the flag and reads its share before any of them adds. */
  function Storm(t: nat, n: nat, last: nat): seq<Step>
    decreases n - t
  {
    if t >= n then [] else [Check(t)] + ([Read(t, Share(t, n, last))] + Storm(t + 1, n, last))
  }

  /** Thread 0 fills the cap a byte at a time; then the first n threads read their shares. */
  function Drip(k: nat, n: nat, last: nat): seq<Step> {
    if k == 0 then Storm(0, n, last) else [Check(0)] + ([Read(0, 1)] + ([Add(0)] + Drip(k - 1, n, last)))
  }

  predicate CanRead(d: Drainer, n: nat) { d.at.Top? && |d.buf| + n <= |d.source| }

  predicate ReadyFrom(s: State, t: nat, n: nat, last: nat) {
    && !s.exceeded && n <= |s.drainers| && 1 <= last <= CHUNK
    && forall u :: t <= u < n ==> CanRead(s.drainers[u], Share(u, n, last))
  }

  predicate ReadyFor(s: State, k: nat, n: nat, last: nat) {
    && s.cap <= U64_MAX && s.combined + k == s.cap && ReadyFrom(s, 0, n, last)
    && n >= 1 && CanRead(s.drainers[0], k + Share(0, n, last))
  }

  lemma ExecCons(s: State, a: Step, rest: seq<Step>)
    requires Enabled(s, a) && Legal(Apply(s, a), rest)
    ensures Legal(s, [a] + rest) && Exec(s, [a] + rest) == Exec(Apply(s, a), rest)
  {
    assert ([a] + rest)[1..] == rest;
  }

  lemma BufferedAfter(s: State, a: Step)
    requires Enabled(s, a)
    ensures |Apply(s, a).drainers| == |s.drainers|
    ensures Buffered(Apply(s, a)) == Buffered(s) + (if a.Read? then a.n else 0)
  {
    SumUpdate(Size, s.drainers, a.t, Apply(s, a).drainers[a.t]);
    hide Sum;
  }

  lemma OneRead(s: State, t: nat, n: nat, last: nat) returns (s': State)
    requires t < n && ReadyFrom(s, t, n, last)
    ensures ReadyFrom(s', t + 1, n, last) && Buffered(s') == Buffered(s) + Share(t, n, last)
    ensures forall rest :: Legal(s', rest) ==>
      var run := [Check(t)] + ([Read(t, Share(t, n, last))] + rest);
      Legal(s, run) && Exec(s, run) == Exec(s', rest)
  {
    var share := Share(t, n, last);
    var s1 := Apply(s, Check(t));
    s' := Apply(s1, Read(t, share));
    BufferedAfter(s, Check(t));
    BufferedAfter(s1, Read(t, share));
    hide Buffered, Exec, Legal;
    forall rest | Legal(s', rest)
      ensures var run := [Check(t)] + ([Read(t, share)] + rest);
        Legal(s, run) && Exec(s, run) == Exec(s', rest)
    {
      ExecCons(s1, Read(t, share), rest);
      ExecCons(s, Check(t), [Read(t, share)] + rest);
    }
  }

  /** The shares from thread t on. */
  function Shares(t: nat, n: nat, last: nat): int { if t >= n then 0 else CHUNK * (n - 1 - t) + last }

  lemma {:induction false} StormReads(s: State, t: nat, n: nat, last: nat)
    requires t <= n && ReadyFrom(s, t, n, last)
    ensures Legal(s, Storm(t, n, last))
    ensures Buffered(Exec(s, Storm(t, n, last))) == Buffered(s) + Shares(t, n, last)
    decreases n - t
  {
    if t < n {
      hide ReadyFrom, Buffered, Exec, Legal;
      var s' := OneRead(s, t, n, last);
      StormReads(s', t + 1, n, last);
    }
  }

  lemma OneByte(s: State, k: nat, n: nat, last: nat) returns (s': State)
    requires k > 0 && ReadyFor(s, k, n, last)
    ensures ReadyFor(s', k - 1, n, last) && Buffered(s') == Buffered(s) + 1
    ensures forall rest :: Legal(s', rest) ==>
      var run := [Check(0)] + ([Read(0, 1)] + ([Add(0)] + rest));
      Legal(s, run) && Exec(s, run) == Exec(s', rest)
  {
    hide Share;
    var s1 := Apply(s, Check(0));
    var s2 := Apply(s1, Read(0, 1));
    DivModUnique(s2.combined + 1, U64_MAX + 1, 0, s2.combined + 1);
    s' := Apply(s2, Add(0));
    BufferedAfter(s, Check(0));
    BufferedAfter(s1, Read(0, 1));
    BufferedAfter(s2, Add(0));
    hide Buffered, Exec, Legal;
    forall rest | Legal(s', rest)
      ensures var run := [Check(0)] + ([Read(0, 1)] + ([Add(0)] + rest));
        Legal(s, run) && Exec(s, run) == Exec(s', rest)
    {
      ExecCons(s2, Add(0), rest);
      ExecCons(s1, Read(0, 1), [Add(0)] + rest);
      ExecCons(s, Check(0), [Read(0, 1)] + ([Add(0)] + rest));
    }
  }

  lemma {:induction false} OvershootIsReached(s: State, k: nat, n: nat, last: nat)
    requires ReadyFor(s, k, n, last)
    ensures Legal(s, Drip(k, n, last))
    ensures Buffered(Exec(s, Drip(k, n, last))) == Buffered(s) + k + Shares(0, n, last)
    decreases k
  {
    hide ReadyFrom, Buffered, Exec, Legal, Storm, Shares;
    if k == 0 {
      StormReads(s, 0, n, last);
    } else {
      hide ReadyFor;
      var s' := OneByte(s, k, n, last);
      OvershootIsReached(s', k - 1, n, last);
    }
  }

  /** For every cap and any number of threads with enough to read, some interleaving buffers a whole
      chunk per thread beyond the cap. */
  lemma OvershootFromStart(s: State)
    requires Init(s) && s.cap <= U64_MAX && s.drainers != []
    requires |s.drainers[0].source| >= s.cap + CHUNK
    requires forall t :: 0 <= t < |s.drainers| ==> |s.drainers[t].source| >= CHUNK
    ensures var run := Drip(s.cap, |s.drainers|, CHUNK);
      Legal(s, run) && Buffered(Exec(s, run)) == s.cap + 4096 * |s.drainers|
  {
    SumZero(Size, s.drainers);
    assert Buffered(s) == 0;
    hide Buffered, Exec, Legal;
    OvershootIsReached(s, s.cap, |s.drainers|, CHUNK);
  }

  /** Every run of n threads under this cap stays within m chunks beyond it. */
  ghost predicate StaysWithin(cap: nat, n: nat, m: nat) {
    forall s, run :: Init(s) && s.cap == cap && |s.drainers| == n && Legal(s, run)
      ==> Buffered(Exec(s, run)) <= cap + 4096 * m
  }

  function Stream(length: nat): Drainer { Drainer(seq(length, _ => 0), [], Top) }

  /** Thread 0 delivers the cap and its share, the next ones a chunk each up to thread m with one byte,
      and the others nothing. */
  function Supplied(cap: nat, t: nat, m: nat): nat {
    (if t == 0 then cap else 0) + if t < m then CHUNK else if t == m then 1 else 0
  }

  function Streams(cap: nat, t: nat, n: nat, m: nat): (ds: seq<Drainer>)
    requires t <= n
    ensures |ds| == n - t
    ensures forall u :: 0 <= u < |ds| ==> ds[u] == Stream(Supplied(cap, t + u, m))
    decreases n - t
  {
    if t == n then [] else [Stream(Supplied(cap, t, m))] + Streams(cap, t + 1, n, m)
  }

  lemma {:induction false} StreamsSupply(cap: nat, t: nat, n: nat, m: nat)
    requires t <= n && m < n
    ensures Sum(Supply, Streams(cap, t, n, m))
         == (if t == 0 then cap else 0) + if t <= m then CHUNK * (m - t) + 1 else 0
    decreases n - t
  {
    if t < n {
      StreamsSupply(cap, t + 1, n, m);
      assert Streams(cap, t, n, m)[1..] == Streams(cap, t + 1, n, m);
    }
  }

  /** One byte past m chunks is reached by n > m threads whenever the counter can hold it. */
  lemma OneByteMore(cap: nat, n: nat, m: nat)
    requires m < n && cap + CHUNK * m < U64_MAX
    ensures !StaysWithin(cap, n, m)
  {
    var s := State(cap, 0, false, Streams(cap, 0, n, m));
    StreamsSupply(cap, 0, n, m);
    assert Countable(s) && Init(s);
    assert ReadyFor(s, cap, m + 1, 1);
    SumZero(Size, s.drainers);
    assert Buffered(s) == 0;
    hide Buffered, Exec, Legal, Streams, Init, ReadyFor;
    OvershootIsReached(s, cap, m + 1, 1);
    assert Legal(s, Drip(cap, m + 1, 1));
  }

  lemma BufferedIsCounted(s: State, run: seq<Step>)
    requires Init(s) && Legal(s, run)
    ensures Buffered(Exec(s, run)) <= U64_MAX
  {
    InitInv(s);
    ExecKeepsInv(s, run);
    BufferedBound(Exec(s, run));
    HeldIsSupplied(Exec(s, run).drainers);
    hide Exec, Legal, Sum;
  }

  /** "The cap plus one read" is exact for one thread: m reads are enough for n threads if and only if
      n is at most m, or m reads beyond the cap are already all a 64-bit counter can hold. */
  lemma OvershootIsExact(cap: nat, n: nat, m: nat)
    requires cap <= U64_MAX
    ensures StaysWithin(cap, n, m) <==> n <= m || cap + 4096 * m >= U64_MAX
  {
    hide Buffered, Exec, Legal, Init;
    if n <= m || cap + CHUNK * m >= U64_MAX {
      forall s, run | Init(s) && s.cap == cap && |s.drainers| == n && Legal(s, run)
        ensures Buffered(Exec(s, run)) <= cap + CHUNK * m
      {
        BoundedOvershoot(s, run);
        BufferedIsCounted(s, run);
      }
    } else {
      OneByteMore(cap, n, m);
    }
  }
}
