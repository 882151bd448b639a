/** Latency histograms, reduced to the samples they hold. */
module Recorders {
  import opened Arith

  const LOW_NS: int := 1
  const HIGH_NS: int := 60_000_000_000

  /** The in-range samples, and how many were above the range. */
  datatype Recorder = Recorder(samples: seq<nat>, outOfRange: nat)

  const FRESH := Recorder([], 0)

  function RecordNs(r: Recorder, ns: nat): Recorder {
    if ns > HIGH_NS then r.(outOfRange := r.outOfRange + 1)
    else r.(samples := r.samples + [Max(ns, LOW_NS)])
  }

  function RecordAll(values: seq<nat>): Recorder {
    if values == [] then FRESH else RecordNs(RecordAll(values[..|values| - 1]), values[|values| - 1])
  }

  lemma RecordSnoc(values: seq<nat>, v: nat)
    ensures RecordAll(values + [v]) == RecordNs(RecordAll(values), v)
  {
    assert (values + [v])[..|values|] == values;
  }

  /** No sample is lost: each is held in range or counted out of range. */
  lemma {:induction false} SamplesConserved(values: seq<nat>)
    ensures |RecordAll(values).samples| + RecordAll(values).outOfRange == |values|
  {
    if values != [] { SamplesConserved(values[..|values| - 1]); }
  }

  function Merge(a: Recorder, b: Recorder): Recorder {
    Recorder(a.samples + b.samples, a.outOfRange + b.outOfRange)
  }

  function MergeAll(rs: seq<Recorder>): Recorder {
    if rs == [] then FRESH else Merge(MergeAll(rs[..|rs| - 1]), rs[|rs| - 1])
  }

  lemma MergeRecord(a: Recorder, b: Recorder, v: nat)
    ensures Merge(a, RecordNs(b, v)) == RecordNs(Merge(a, b), v)
  {
    assert a.samples + (b.samples + [Max(v, LOW_NS)]) == (a.samples + b.samples) + [Max(v, LOW_NS)];
  }

  /** Merging recorders is recording everything into one. */
  lemma {:induction false} MergeOfRecorded(xs: seq<nat>, ys: seq<nat>)
    ensures Merge(RecordAll(xs), RecordAll(ys)) == RecordAll(xs + ys)
  {
    if ys == [] {
      assert xs + ys == xs;
      assert RecordAll(xs).samples + [] == RecordAll(xs).samples;
    } else {
      var n := |ys| - 1;
      assert RecordAll(ys) == RecordNs(RecordAll(ys[..n]), ys[n]);
      hide RecordNs, RecordAll, Merge;
      MergeOfRecorded(xs, ys[..n]);
      RecordSnoc(xs + ys[..n], ys[n]);
      MergeRecord(RecordAll(xs), RecordAll(ys[..n]), ys[n]);
      assert xs + ys == (xs + ys[..n]) + [ys[n]];
    }
  }

  /** What recorders hold together, as a collection. */
  function Held(rs: seq<Recorder>): (multiset<nat>, nat) {
    (multiset(MergeAll(rs).samples), MergeAll(rs).outOfRange)
  }

  lemma {:induction false} MergeAllConcat(a: seq<Recorder>, b: seq<Recorder>)
    ensures MergeAll(a + b) == Merge(MergeAll(a), MergeAll(b))
  {
    if b == [] {
      assert a + b == a;
      assert MergeAll(a).samples + [] == MergeAll(a).samples;
    } else {
      var n := |b| - 1;
      MergeAllConcat(a, b[..n]);
      assert (a + b)[..|a + b| - 1] == a + b[..n];
      assert MergeAll(a).samples + (MergeAll(b[..n]).samples + b[n].samples)
          == (MergeAll(a).samples + MergeAll(b[..n]).samples) + b[n].samples;
    }
  }

  lemma HeldConcat(a: seq<Recorder>, b: seq<Recorder>)
    ensures Held(a + b) == (Held(a).0 + Held(b).0, Held(a).1 + Held(b).1)
  {
    MergeAllConcat(a, b);
    hide MergeAll;
  }

  function Without(qs: seq<Recorder>, k: nat): seq<Recorder>
    requires k < |qs|
  {
    qs[..k] + qs[k + 1..]
  }

  lemma HeldWithout(qs: seq<Recorder>, k: nat)
    requires k < |qs|
    ensures var rest, one := Held(Without(qs, k)), Held([qs[k]]);
      Held(qs) == (rest.0 + one.0, rest.1 + one.1)
  {
    hide Held;
    assert qs == qs[..k] + ([qs[k]] + qs[k + 1..]);
    HeldConcat(qs[..k], qs[k + 1..]);
    HeldConcat([qs[k]], qs[k + 1..]);
    HeldConcat(qs[..k], [qs[k]] + qs[k + 1..]);
    var a, one, c := Held(qs[..k]).0, Held([qs[k]]).0, Held(qs[k + 1..]).0;
    assert a + (one + c) == (a + c) + one;
  }

  lemma MultisetWithout(qs: seq<Recorder>, k: nat)
    requires k < |qs|
    ensures multiset(Without(qs, k)) == multiset(qs) - multiset{qs[k]}
  {
    assert qs == qs[..k] + ([qs[k]] + qs[k + 1..]);
  }

  /** The order of the recorders does not matter to what they hold together. */
  lemma {:induction false} HeldOrderFree(rs: seq<Recorder>, qs: seq<Recorder>)
    requires multiset(rs) == multiset(qs)
    ensures Held(rs) == Held(qs)
    decreases |rs|
  {
    hide Held, Without;
    assert |multiset(rs)| == |rs| && |multiset(qs)| == |qs|;
    if rs != [] {
      assert rs[0] in multiset(qs);
      var k: nat :| k < |qs| && qs[k] == rs[0];
      MultisetWithout(rs, 0);
      MultisetWithout(qs, k);
      assert |Without(rs, 0)| < |rs| by { WithoutIsShorter(rs, 0); }
      HeldOrderFree(Without(rs, 0), Without(qs, k));
      HeldWithout(rs, 0);
      HeldWithout(qs, k);
    }
  }

  lemma WithoutIsShorter(qs: seq<Recorder>, k: nat)
    requires k < |qs|
    ensures |Without(qs, k)| == |qs| - 1
  {
  }
}
