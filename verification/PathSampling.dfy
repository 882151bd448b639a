/** From a route count to sampled paths: the expression, its parse, its bound and the draws. */
module PathSampling {
  import opened Arith
  import opened Decimal
  import opened Wrappers
  import opened CorpusGrammar
  import opened CorpusExpansion
  import opened RouteTable
  import opened RoutePattern
  import opened CorpusFile
  import opened PathCorpus
  import CorpusParser

  const MAX_SAMPLE_COUNT: int := 1_000_000
  const MAX_SAMPLE_PATH_BYTES: int := 2048

  // ----- the expression

  /** Refused unless the route count is a power of ten; one route is refused for a file-backed corpus;
      otherwise the fixed path, or what the file gives for the width. */
  ghost predicate ExprResult(corpus: Corpus, routes: nat, content: string, r: Result<string>) {
    && ((forall w: nat :: Pow10(w) != routes) ==> r == Err(NotAPowerOfTen))
    && forall w: nat :: Pow10(w) == routes ==>
         r == if corpus.SingleHot? then Ok(ExprOf(SingleHot, w))
              else if routes == 1 then Err(SingleRoute)
              else Reading(content, w)
  }

  method PathExpr(corpus: Corpus, routes: nat, content: string) returns (r: Result<string>)
    requires routes < U32_LIMIT
    ensures ExprResult(corpus, routes, content, r)
  {
    hide Reading, ExprOf;
    var width := PowerOfTenWidth(routes);
    if width.None? {
      return Err(NotAPowerOfTen);
    }
    var w := width.value;
    OneWidth(w);
    if corpus.SingleHot? {
      return Ok(ExprOf(SingleHot, w));
    }
    if routes == 1 {
      return Err(SingleRoute);
    }
    r := ReadPattern(content, w);
  }

  lemma OneWidth(w: nat)
    ensures forall v: nat :: Pow10(v) == Pow10(w) ==> v == w
  {
    forall v: nat | Pow10(v) == Pow10(w) ensures v == w {
      if v < w { PowIncreasing(v, w); } else if w < v { PowIncreasing(w, v); }
    }
  }

  /** The file of a corpus as it is committed: small enough, with the one pattern line. */
  ghost predicate Committed(corpus: Corpus, content: string) {
    corpus.SingleHot? || (Utf8Len(content) <= MAX_CORPUS_FILE_BYTES
                          && PatternLines(content) == [FilePattern(ShapeOf(corpus), "{3}")])
  }

  /** A file of comments, blank lines and the pattern, small enough, is one as committed. */
  lemma CommittedForm(corpus: Corpus, skipped: seq<string>, before: string, after: string)
    requires !corpus.SingleHot? && forall i :: 0 <= i < |skipped| ==> IsSkipped(skipped[i])
    requires AllWhite(before) && AllWhite(after) && '\n' !in before && '\n' !in after
    requires Utf8Len(FileText(skipped, before, FilePattern(ShapeOf(corpus), "{3}"), after)) <= MAX_CORPUS_FILE_BYTES
    ensures Committed(corpus, FileText(skipped, before, FilePattern(ShapeOf(corpus), "{3}"), after))
  {
    var p := FilePattern(ShapeOf(corpus), "{3}");
    PatternStart(ShapeOf(corpus), "{3}");
    BracedIsShort(0);
    hide FilePattern, PatternLines, FileText, Utf8Len, AllPrintable, IsSkipped, AllWhite;
    PatternIsPlain(ShapeOf(corpus), "{3}");
    FileHoldsPattern(skipped, before, p, after);
  }

  lemma PatternStart(shape: Shape, count: string)
    ensures FilePattern(shape, count) != [] && FilePattern(shape, count)[0] == '/'
  {
    hide TailText;
  }

  lemma CommittedReads(corpus: Corpus, content: string, w: nat)
    requires Committed(corpus, content) && !corpus.SingleHot? && w <= MAX_COUNTED_REPEAT
    ensures Reading(content, w) == Ok(ExprOf(corpus, w))
  {
    hide PatternLines, FilePattern, ReplaceMarker, Braced, AllPrintable, Utf8Len;
    MarkerReplaced(ShapeOf(corpus), w);
    BracedIsShort(w);
    PatternIsPlain(ShapeOf(corpus), "{3}");
    PatternIsPlain(ShapeOf(corpus), Braced(w));
  }

  lemma BracedIsShort(w: nat)
    requires w <= MAX_COUNTED_REPEAT
    ensures AllPrintable("{3}") && AllPrintable(Braced(w)) && |Braced(w)| <= 4
  {
    DecIsDigits(w);
    assert Pow10(2) == 100;
    DecLength(w, 2);
    hide Dec;
    forall k | 0 <= k < |Dec(w)| ensures IsPrintable(Dec(w)[k]) { assert IsDigit(Dec(w)[k]); }
  }

  lemma PrintableJoin(a: string, b: string)
    requires AllPrintable(a) && AllPrintable(b)
    ensures AllPrintable(a + b)
  {
  }

  lemma TailIsPlain(shape: Shape)
    ensures AllPrintable(TailText(shape)) && |TailText(shape)| <= 64
  {
    match shape {
      case Flat =>
        assert AllPrintable(ClassText("0-9a-f", "8")) && |ClassText("0-9a-f", "8")| == 11;
        hide ClassText;
      case SharedPrefix =>
        assert AllPrintable(ClassText("0-9", "1,6")) && |ClassText("0-9", "1,6")| == 10;
        VerbGroupIsPlain();
        hide ClassText, GroupText;
        PrintableJoin("/", VERB_GROUP);
        PrintableJoin(ClassText("0-9", "1,6"), "/" + VERB_GROUP);
        PrintableJoin("/issues/", ClassText("0-9", "1,6") + ("/" + VERB_GROUP));
      case LastSegment =>
    }
  }

  lemma VerbGroupIsPlain()
    ensures AllPrintable(VERB_GROUP) && |VERB_GROUP| <= 30
  {
    assert AllPrintable("comments") && AllPrintable("reviews") && AllPrintable("files");
  }

  lemma PatternIsPlain(shape: Shape, count: string)
    requires AllPrintable(count) && |count| <= 4
    ensures AllPrintable(FilePattern(shape, count)) && |FilePattern(shape, count)| <= MAX_CORPUS_FILE_BYTES
  {
    TailIsPlain(shape);
    PrefixIsPlain(shape);
    hide TailText, Prefix, AllPrintable;
    PrintableJoin(count, TailText(shape));
    PrintableJoin(Prefix(shape) + "[0-9]", count + TailText(shape));
  }

  lemma PrefixIsPlain(shape: Shape)
    ensures AllPrintable(Prefix(shape) + "[0-9]") && |Prefix(shape)| <= 20
  {
    PrefixIsLiteral(shape);
    assert |Prefix(shape)| <= 20;
    hide Prefix;
  }

  // ----- sampling a corpus

  lemma {:induction false} MaxLenCons(e: Elem, es: seq<Elem>)
    ensures MaxLen([e] + es) == ElemMax(e) + MaxLen(es)
  {
    assert ([e] + es)[1..] == es;
  }

  lemma FixedMax(bytes: string)
    ensures ElemMax(Fixed(bytes)) == |bytes|
  {
  }

  lemma TailFits(shape: Shape)
    ensures MaxLen(TailElems(shape)) <= 64
  {
    MaxLenEmpty();
    hide MaxLen, Span;
    match shape {
      case Flat =>
        MaxLenCons(Class(HEX, 8, 8), []);
        MaxLenCons(Fixed("/"), [Class(HEX, 8, 8)] + []);
        FixedMax("/");
      case SharedPrefix =>
        var es := [Alt(VERBS)] + [];
        assert Longest(VERBS) <= 8;
        MaxLenCons(Alt(VERBS), []);
        MaxLenCons(Fixed("/"), es);
        MaxLenCons(Class(DIGITS, 1, 6), [Fixed("/")] + es);
        MaxLenCons(Fixed("/issues/"), [Class(DIGITS, 1, 6)] + ([Fixed("/")] + es));
        FixedMax("/");
        FixedMax("/issues/");
      case LastSegment =>
    }
  }

  lemma FileFits(shape: Shape, w: nat)
    requires w <= MAX_COUNTED_REPEAT
    ensures MaxLen(FileElems(shape, w)) <= MAX_SAMPLE_PATH_BYTES
  {
    hide MaxLen, TailElems, Span;
    TailFits(shape);
    MaxLenCons(Class(DIGITS, w, w), TailElems(shape));
    MaxLenCons(Fixed(Prefix(shape)), [Class(DIGITS, w, w)] + TailElems(shape));
    FixedMax(Prefix(shape));
  }

  lemma HotFits(w: nat)
    requires w <= MAX_COUNTED_REPEAT
    ensures MaxLen(ElemsOf(SingleHot, w)) <= MAX_SAMPLE_PATH_BYTES
  {
    var e := ExprOf(SingleHot, w);
    assert |Pad(0, w)| <= MAX_COUNTED_REPEAT;
    hide Pad, MaxLen;
    MaxLenEmpty();
    FixedMax(e);
    assert [Fixed(e)] + [] == [Fixed(e)];
    MaxLenCons(Fixed(e), []);
  }

  /** No corpus expression is refused for its length. */
  lemma CorpusFits(corpus: Corpus, w: nat)
    requires w <= MAX_COUNTED_REPEAT
    ensures MaxLen(ElemsOf(corpus, w)) <= MAX_SAMPLE_PATH_BYTES
  {
    hide MaxLen, FileElems;
    if corpus.SingleHot? { HotFits(w); } else { FileFits(ShapeOf(corpus), w); }
  }

  /** The late length check never fires: the early bound covers every sample. */
  lemma SamplesFit(es: seq<Elem>, tape: seq<nat>)
    requires AllDrawable(es) && MaxLen(es) <= MAX_SAMPLE_PATH_BYTES
    ensures |Sample(es, tape).0| <= MAX_SAMPLE_PATH_BYTES
  {
    hide MaxLen, Matches, Sample;
    SampleMatches(es, tape);
    WordFits(es, Sample(es, tape).0);
  }

  /** Samples drawn one after the other from one tape. */
  ghost predicate AreSamples(es: seq<Elem>, tape: seq<nat>, out: seq<string>)
    requires AllDrawable(es)
    decreases |out|
  {
    out != [] ==>
      && out[0] == Sample(es, tape).0
      && AreSamples(es, Sample(es, tape).1, out[1..])
  }

  lemma {:induction false} SamplesMatch(es: seq<Elem>, tape: seq<nat>, out: seq<string>, k: nat)
    requires AllDrawable(es) && AreSamples(es, tape, out) && k < |out|
    ensures Matches(es, out[k])
    decreases k
  {
    hide Matches, Sample;
    if k == 0 {
      SampleMatches(es, tape);
    } else {
      SamplesMatch(es, Sample(es, tape).1, out[1..], k - 1);
    }
  }

  /** Draws the paths in turn; with an expression that fits, the length check lets every one through. */
  method DrawPaths(es: seq<Elem>, count: nat, tape: seq<nat>) returns (r: Result<seq<string>>)
    requires AllDrawable(es)
    ensures r.Ok? ==> |r.value| == count && AreSamples(es, tape, r.value)
    ensures MaxLen(es) <= MAX_SAMPLE_PATH_BYTES ==> r.Ok?
    ensures r.Err? ==> r.error == ExpansionTooLong
  {
    hide Sample, MaxLen;
    var out, t := [], tape;
    ghost var tapes := [tape];
    while |out| < count
      invariant |out| <= count && |tapes| == |out| + 1 && tapes[0] == tape && tapes[|out|] == t
      invariant forall k :: 0 <= k < |out| ==> Sample(es, tapes[k]) == (out[k], tapes[k + 1])
    {
      var sample, t1 := SampleLoop(es, t);
      if |sample| > MAX_SAMPLE_PATH_BYTES {
        if MaxLen(es) <= MAX_SAMPLE_PATH_BYTES { SamplesFit(es, t); }
        return Err(ExpansionTooLong);
      }
      out, t := out + [sample], t1;
      tapes := tapes + [t1];
    }
    ChainIsSamples(es, tapes, out);
    return Ok(out);
  }

  lemma {:induction false} ChainIsSamples(es: seq<Elem>, tapes: seq<seq<nat>>, out: seq<string>)
    requires AllDrawable(es) && |tapes| == |out| + 1
    requires forall k :: 0 <= k < |out| ==> Sample(es, tapes[k]) == (out[k], tapes[k + 1])
    ensures AreSamples(es, tapes[0], out)
    decreases |out|
  {
    hide Sample;
    if out != [] {
      assert tapes[1..][0] == tapes[1];
      forall k | 0 <= k < |out| - 1 ensures Sample(es, tapes[1..][k]) == (out[1..][k], tapes[1..][k + 1]) {
        assert Sample(es, tapes[k + 1]) == (out[k + 1], tapes[k + 2]);
      }
      ChainIsSamples(es, tapes[1..], out[1..]);
    }
  }

  /** Parse, bound, then draw. */
  method SamplesOf(expr: string, count: nat, tape: seq<nat>) returns (r: Result<seq<string>>)
    requires Bytes(expr)
    ensures r.Ok? <==> ParseElems(expr).Some? && MaxLen(ParseElems(expr).value) <= 2048
    ensures r.Err? ==> r.error == if ParseElems(expr).None? then BadExpression else ExpansionTooLong
    ensures r.Ok? ==> |r.value| == count && AllDrawable(ParseElems(expr).value)
    ensures r.Ok? ==> AreSamples(ParseElems(expr).value, tape, r.value)
  {
    hide ParseElems, MaxLen, AreSamples, Bytes;
    var elems := CorpusParser.Elems(expr);
    if elems.None? {
      return Err(BadExpression);
    }
    ParsedIsDrawable(expr);
    var bound := MaxExpansion(elems.value);
    if bound.None? || bound.value > MAX_SAMPLE_PATH_BYTES {
      return Err(ExpansionTooLong);
    }
    r := DrawPaths(elems.value, count, tape);
  }

  lemma SmallWidth(w: nat)
    requires Pow10(w) < U32_LIMIT
    ensures w <= 9
  {
    if w > 9 {
      TenDigits();
      PowMono(10, w);
    }
  }

  lemma TenDigits()
    ensures Pow10(6) == 1_000_000 && Pow10(7) == 10_000_000 && Pow10(10) == 10_000_000_000
  {
    assert Pow10(2) == 100;
    assert Pow10(4) == 10_000;
    assert Pow10(6) == 1_000_000;
    assert Pow10(8) == 100_000_000;
  }

  lemma PrintableIsBytes(s: string)
    requires AllPrintable(s)
    ensures Bytes(s)
  {
  }

  /** Paths that can be sent as they are: within the length limit and printable. */
  predicate Sendable(path: string) { |path| <= 2048 && AllPrintable(path) }

  /** Samples of a printable expression are printable, so turning their bytes into text cannot fail. */
  lemma SamplesAreSendable(expr: string, tape: seq<nat>, paths: seq<string>, k: nat)
    requires Bytes(expr) && AllPrintable(expr) && ParseElems(expr).Some?
    requires var es := ParseElems(expr).value;
      AllDrawable(es) && MaxLen(es) <= MAX_SAMPLE_PATH_BYTES && AreSamples(es, tape, paths)
    requires k < |paths|
    ensures Sendable(paths[k])
  {
    hide ParseElems, AllPrintable, Bytes, AllDrawable, MaxLen, Matches, AreSamples;
    var es := ParseElems(expr).value;
    ParsedIsPrintable(expr);
    SamplesMatch(es, tape, paths, k);
    WordPrintable(es, paths[k]);
    WordFits(es, paths[k]);
  }

  /** Whatever table is built for the corpus at this size, the path matches exactly one of its patterns. */
  ghost predicate HitsEveryTable(corpus: Corpus, routes: nat, path: string) {
    forall clusters: nat, r :: TableResult(Linear(ShapeOf(corpus)), routes, clusters, r) && r.Ok?
      ==> MatchesExactlyOne(r.value, path)
  }

  /** What the sampler promises of its paths. */
  ghost predicate GoodPaths(corpus: Corpus, routes: nat, count: nat, paths: seq<string>) {
    && |paths| == count
    && forall k :: 0 <= k < count ==>
                     |paths[k]| <= 2048 && HitsEveryTable(corpus, routes, paths[k])
  }

  lemma WordHits(corpus: Corpus, w: nat, word: string)
    requires w >= 1 || corpus.SingleHot?
    requires Matches(ElemsOf(corpus, w), word)
    ensures HitsEveryTable(corpus, Pow10(w), word)
  {
    hide ElemsOf, Matches, MatchesExactlyOne, Pow10, IsTable;
    forall clusters: nat, r | TableResult(Linear(ShapeOf(corpus)), Pow10(w), clusters, r) && r.Ok?
      ensures MatchesExactlyOne(r.value, word)
    {
      WordNamesOne(corpus, w, clusters, r.value, word);
    }
  }

  lemma SamplesAreGood(corpus: Corpus, w: nat, tape: seq<nat>, paths: seq<string>)
    requires w <= MAX_COUNTED_REPEAT && (w >= 1 || corpus.SingleHot?)
    requires AllDrawable(ElemsOf(corpus, w)) && AreSamples(ElemsOf(corpus, w), tape, paths)
    ensures GoodPaths(corpus, Pow10(w), |paths|, paths)
  {
    hide ElemsOf, AreSamples, Matches, MaxLen, HitsEveryTable, Pow10, AllDrawable;
    var es := ElemsOf(corpus, w);
    CorpusFits(corpus, w);
    forall k | 0 <= k < |paths|
      ensures |paths[k]| <= MAX_SAMPLE_PATH_BYTES && HitsEveryTable(corpus, Pow10(w), paths[k])
    {
      SamplesMatch(es, tape, paths, k);
      WordFits(es, paths[k]);
      WordHits(corpus, w, paths[k]);
    }
  }

  /** Which requests are refused. */
  ghost predicate Refused(corpus: Corpus, routes: nat, count: nat) {
    || count == 0
    || count > 1_000_000
    || (forall w: nat :: Pow10(w) != routes)
    || (routes == 1 && !corpus.SingleHot?)
  }

  lemma ExprIsPrintable(w: nat, content: string, expr: string)
    requires expr == ExprOf(SingleHot, w) || Reading(content, w) == Ok(expr)
    ensures AllPrintable(expr) && Bytes(expr)
  {
    if expr == ExprOf(SingleHot, w) {
      HotIsLiteral(w);
    } else {
      ReadIsPrintable(content, w);
    }
    hide Reading, ExprOf;
    PrintableIsBytes(expr);
  }

  lemma CommittedIsGood(corpus: Corpus, w: nat, expr: string, tape: seq<nat>, count: nat, r: Result<seq<string>>)
    requires w <= MAX_COUNTED_REPEAT && (w >= 1 || corpus.SingleHot?) && expr == ExprOf(corpus, w)
    requires Bytes(expr)
    requires r.Ok? <==> ParseElems(expr).Some? && MaxLen(ParseElems(expr).value) <= MAX_SAMPLE_PATH_BYTES
    requires r.Ok? ==> |r.value| == count && AllDrawable(ParseElems(expr).value)
    requires r.Ok? ==> AreSamples(ParseElems(expr).value, tape, r.value)
    ensures r.Ok? && GoodPaths(corpus, Pow10(w), count, r.value)
  {
    hide ExprOf, ElemsOf, GoodPaths, AreSamples, MaxLen, ParseElems, AllDrawable, Bytes, Pow10;
    ExprParses(corpus, w);
    CorpusFits(corpus, w);
    SamplesAreGood(corpus, w, tape, r.value);
  }

  /** The whole pipeline. With the committed file it is refused exactly for a bad count or route count,
      and otherwise returns `count` paths that each name exactly one route of the paired table. With
      any file, whatever is returned can be sent as it is. */
  method PathSamples(corpus: Corpus, routes: nat, content: string, count: nat, tape: seq<nat>)
    returns (r: Result<seq<string>>)
    requires routes < U32_LIMIT && count < U32_LIMIT
    ensures count == 0 || count > 1_000_000 ==> r == Err(CountOutOfRange)
    ensures 1 <= count <= 1_000_000 && (forall w: nat :: Pow10(w) != routes) ==> r == Err(NotAPowerOfTen)
    ensures 1 <= count <= 1_000_000 && routes == 1 && !corpus.SingleHot? ==> r == Err(SingleRoute)
    ensures Committed(corpus, content) ==> (r.Err? <==> Refused(corpus, routes, count))
    ensures Committed(corpus, content) && r.Ok? ==> GoodPaths(corpus, routes, count, r.value)
    ensures r.Ok? ==> |r.value| == count && forall k :: 0 <= k < count ==> Sendable(r.value[k])
  {
    hide ExprOf, ElemsOf, GoodPaths, AreSamples, MaxLen, ParseElems, AllDrawable, Bytes, Pow10;
    hide Reading, Committed, AllPrintable, Sendable;
    if count == 0 || count > MAX_SAMPLE_COUNT {
      return Err(CountOutOfRange);
    }
    var expr := PathExpr(corpus, routes, content);
    if expr.Err? {
      WidthOfOneRoute();
      RefusedExpr(corpus, routes, content, count, expr.error);
      return Err(expr.error);
    }
    ghost var w: nat :| Pow10(w) == routes;
    SmallWidth(w);
    WidthZero(w);
    ExprIsPrintable(w, content, expr.value);
    r := SamplesOf(expr.value, count, tape);
    if Committed(corpus, content) {
      if !corpus.SingleHot? { CommittedReads(corpus, content, w); }
      CommittedIsGood(corpus, w, expr.value, tape, count, r);
    }
    if r.Ok? {
      forall k | 0 <= k < count ensures Sendable(r.value[k]) {
        SamplesAreSendable(expr.value, tape, r.value, k);
      }
    }
  }

  lemma RefusedExpr(corpus: Corpus, routes: nat, content: string, count: nat, error: BenchError)
    requires routes < U32_LIMIT && ExprResult(corpus, routes, content, Err(error))
    ensures Committed(corpus, content) ==> Refused(corpus, routes, count)
  {
    hide ExprOf, Reading, Committed, Pow10;
    if Committed(corpus, content) && exists w: nat :: Pow10(w) == routes {
      var w: nat :| Pow10(w) == routes;
      SmallWidth(w);
      if !corpus.SingleHot? { CommittedReads(corpus, content, w); }
    }
  }

  lemma SixDigits(w: nat)
    ensures Pow10(w) <= MAX_ROUTES <==> w <= 6
  {
    TenDigits();
    if w <= 6 { PowMono(w, 6); } else { PowMono(7, w); }
  }

  /** For a route count whose expression is produced from the committed file, the paired table is built
      exactly when the index has at most six digits. */
  lemma WidthsWithATable(corpus: Corpus, w: nat, content: string, clusters: nat, expr: Result<string>,
                         table: Result<seq<RouteSpec>>)
    requires Pow10(w) < U32_LIMIT && Committed(corpus, content) && clusters > 0
    requires ExprResult(corpus, Pow10(w), content, expr)
    requires TableResult(Linear(ShapeOf(corpus)), Pow10(w), clusters, table)
    ensures expr.Ok? <==> w >= 1 || corpus.SingleHot?
    ensures table.Ok? <==> w <= 6
  {
    hide Committed, Reading, ExprOf, IsTable, Pow10;
    SixDigits(w);
    SmallWidth(w);
    WidthZero(w);
    if !corpus.SingleHot? { CommittedReads(corpus, content, w); }
  }

  /** At ten million routes there is an expression and no table. */
  lemma ExpressionWithoutTable(corpus: Corpus, content: string, clusters: nat, expr: Result<string>,
                               table: Result<seq<RouteSpec>>)
    requires Committed(corpus, content) && clusters > 0
    requires ExprResult(corpus, 10_000_000, content, expr)
    requires TableResult(Linear(ShapeOf(corpus)), 10_000_000, clusters, table)
    ensures expr.Ok? && table == Err(TableTooLarge)
  {
    hide Committed, ExprResult, IsTable;
    TenDigits();
    WidthsWithATable(corpus, 7, content, clusters, expr, table);
  }

  lemma WidthZero(w: nat)
    ensures Pow10(w) == 1 <==> w == 0
  {
  }
}
