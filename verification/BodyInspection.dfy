/** Body-inspection declarations and how those of one route are merged. */
module BodyInspection {
  import opened Arith
  import opened Wrappers

  datatype Buffering = Nothing | Window(bytes: nat) | Whole(bytes: nat)

  datatype OnExceed = Reject413 | StreamThroughUninspected

  datatype OverflowAction = Reject | StreamThrough

  datatype Declaration = Declaration(buffering: Buffering, onExceed: OnExceed)

  const NONE := Declaration(Nothing, Reject413)

  function Observe(d: Declaration, received: nat): Option<OverflowAction> {
    if d.buffering.Nothing? || received <= d.buffering.bytes then None
    else if d.onExceed.Reject413? then Some(Reject)
    else Some(StreamThrough)
  }

  function LeaseSize(d: Declaration): nat {
    if d.buffering.Nothing? then 0 else d.buffering.bytes
  }

  function Combine(a: Declaration, b: Declaration): Declaration {
    if a.buffering.Nothing? then b
    else if b.buffering.Nothing? then a
    else
      var buffering :=
        if a.buffering.bytes > b.buffering.bytes then a.buffering
        else if b.buffering.bytes > a.buffering.bytes then b.buffering
        else if a.buffering.Whole? then a.buffering
        else b.buffering;
      var onExceed :=
        if a.onExceed.Reject413? || b.onExceed.Reject413? then Reject413 else StreamThroughUninspected;
      Declaration(buffering, onExceed)
  }

  predicate Inspects(d: Declaration) { !d.buffering.Nothing? }

  /** The same kind and ceiling, and the same action wherever an action can be taken. */
  predicate Same(a: Declaration, b: Declaration) {
    a.buffering == b.buffering && (Inspects(a) ==> a.onExceed == b.onExceed)
  }

  /** Both inspect nothing, or both have one ceiling and one action, of whichever kind. */
  predicate Alike(a: Declaration, b: Declaration) {
    && Inspects(a) == Inspects(b)
    && (Inspects(a) ==> a.buffering.bytes == b.buffering.bytes && a.onExceed == b.onExceed)
  }

  /** Declarations reserve the same bytes and answer every running count alike exactly when they are
      alike; being the same is that and being of one kind. */
  lemma SameIsObservable(a: Declaration, b: Declaration)
    ensures LeaseSize(a) == LeaseSize(b) && (forall n: nat :: Observe(a, n) == Observe(b, n)) <==> Alike(a, b)
    ensures Same(a, b) <==> Alike(a, b) && a.buffering.Whole? == b.buffering.Whole?
  {
    var n := Max(LeaseSize(a), LeaseSize(b)) + 1;
    assert Observe(a, n) == Observe(b, n) ==> Inspects(a) == Inspects(b);
  }

  lemma CombineAssociative(a: Declaration, b: Declaration, c: Declaration)
    ensures Combine(Combine(a, b), c) == Combine(a, Combine(b, c))
  {
  }

  /** Documented as commutative: exactly so unless neither side inspects and they disagree on the
      action neither can take. */
  lemma CombineCommutes(a: Declaration, b: Declaration)
    ensures Same(Combine(a, b), Combine(b, a))
    ensures Combine(a, b) == Combine(b, a) <==> Inspects(a) || Inspects(b) || a.onExceed == b.onExceed
  {
  }

  /** Documented as a true identity: on the left always, on the right unless the other side inspects
      nothing and names the fail-open action. */
  lemma NoneIsIdentity(a: Declaration)
    ensures Combine(NONE, a) == a && Same(Combine(a, NONE), a)
    ensures Combine(a, NONE) == a <==> Inspects(a) || a.onExceed == Reject413
  {
  }

  // ----- any number of declarations, grouped and ordered in any way

  /** One way of merging a route's declarations. */
  datatype Grouping = One(d: Declaration) | Both(left: Grouping, right: Grouping)

  function Leaves(g: Grouping): multiset<Declaration> {
    match g
    case One(d) => multiset{d}
    case Both(l, r) => Leaves(l) + Leaves(r)
  }

  function Merge(g: Grouping): Declaration {
    match g
    case One(d) => d
    case Both(l, r) => Combine(Merge(l), Merge(r))
  }

  /** Ceilings in order: nothing, then by size, a whole body above a window of the same size. */
  predicate AtMost(a: Buffering, b: Buffering) {
    || a.Nothing?
    || (!b.Nothing? && (a.bytes < b.bytes || (a.bytes == b.bytes && (a.Window? || b.Whole?))))
  }

  /** What the merge must be, said of the collection alone: the greatest ceiling of any member, and
      rejection exactly when some inspecting member rejects. */
  ghost predicate Summarises(r: Declaration, ds: multiset<Declaration>) {
    && (forall d :: d in ds ==> AtMost(d.buffering, r.buffering))
    && (exists d :: d in ds && d.buffering == r.buffering)
    && (Inspects(r) ==>
          (r.onExceed == Reject413 <==> exists d :: d in ds && Inspects(d) && d.onExceed == Reject413))
  }

  lemma AtMostTransitive(a: Buffering, b: Buffering, c: Buffering)
    requires AtMost(a, b) && AtMost(b, c)
    ensures AtMost(a, c)
  {
  }

  lemma CombineSummarises(a: Declaration, b: Declaration, x: multiset<Declaration>, y: multiset<Declaration>)
    requires Summarises(a, x) && Summarises(b, y)
    ensures Summarises(Combine(a, b), x + y)
  {
    var r := Combine(a, b);
    assert AtMost(a.buffering, r.buffering) && AtMost(b.buffering, r.buffering);
    forall d | d in x + y
      ensures AtMost(d.buffering, r.buffering)
    {
      if d in x { AtMostTransitive(d.buffering, a.buffering, r.buffering); }
      else { AtMostTransitive(d.buffering, b.buffering, r.buffering); }
    }
    var da :| da in x && da.buffering == a.buffering;
    var db :| db in y && db.buffering == b.buffering;
    assert da in x + y && db in x + y;
    if r.onExceed == Reject413 && Inspects(r) {
      if Inspects(a) && a.onExceed == Reject413 {
        var d :| d in x && Inspects(d) && d.onExceed == Reject413;
        assert d in x + y;
      } else {
        var d :| d in y && Inspects(d) && d.onExceed == Reject413;
        assert d in x + y;
      }
    }
  }

  lemma {:induction false} MergeSummarises(g: Grouping)
    ensures Summarises(Merge(g), Leaves(g))
  {
    match g {
      case One(d) =>
        assert d in Leaves(g);
      case Both(l, r) =>
        MergeSummarises(l);
        MergeSummarises(r);
        CombineSummarises(Merge(l), Merge(r), Leaves(l), Leaves(r));
    }
  }

  lemma SummaryIsUnique(a: Declaration, b: Declaration, ds: multiset<Declaration>)
    requires Summarises(a, ds) && Summarises(b, ds)
    ensures Same(a, b)
  {
    var da :| da in ds && da.buffering == a.buffering;
    var db :| db in ds && db.buffering == b.buffering;
    assert AtMost(a.buffering, b.buffering) && AtMost(b.buffering, a.buffering);
  }

  /** However the same declarations are ordered and grouped, the merged route behaves the same. */
  lemma MergeIsOrderFree(g: Grouping, h: Grouping)
    requires Leaves(g) == Leaves(h)
    ensures Same(Merge(g), Merge(h))
    ensures LeaseSize(Merge(g)) == LeaseSize(Merge(h))
    ensures forall n: nat :: Observe(Merge(g), n) == Observe(Merge(h), n)
  {
    MergeSummarises(g);
    MergeSummarises(h);
    SummaryIsUnique(Merge(g), Merge(h), Leaves(g));
    SameIsObservable(Merge(g), Merge(h));
  }

  /** The count is above the ceiling of every inspecting member, and there is one. */
  ghost predicate Over(ds: multiset<Declaration>, n: nat) {
    && (exists d :: d in ds && !d.buffering.Nothing?)
    && forall d :: d in ds && !d.buffering.Nothing? ==> d.buffering.bytes < n
  }

  /** A merged route acts exactly once the count is over every ceiling, and then refuses the request
      exactly when some inspecting member would; it reserves the greatest ceiling. */
  lemma MergeActs(g: Grouping, n: nat)
    ensures Observe(Merge(g), n) == Some(Reject) <==>
      Over(Leaves(g), n) && exists d :: d in Leaves(g) && !d.buffering.Nothing? && d.onExceed == Reject413
    ensures Observe(Merge(g), n) == Some(StreamThrough) <==>
      && Over(Leaves(g), n)
      && forall d :: d in Leaves(g) && !d.buffering.Nothing? ==> d.onExceed == StreamThroughUninspected
    ensures n > LeaseSize(Merge(g)) <==>
      n > 0 && forall d :: d in Leaves(g) && !d.buffering.Nothing? ==> d.buffering.bytes < n
  {
    MergeSummarises(g);
    var r, ds := Merge(g), Leaves(g);
    var top :| top in ds && top.buffering == r.buffering;
    hide Merge, Leaves;
    if Inspects(r) {
      assert Over(ds, n) <==> r.buffering.bytes < n;
    }
  }
}
