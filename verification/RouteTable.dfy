/** Generated route tables: how wide an index is rendered, what each route looks like, and which
    paths a route is named by. */
module RouteTable {
  import opened Arith
  import opened Decimal
  import opened CorpusGrammar
  import opened RoutePattern
  import opened Wrappers
  import CorpusSyntax

  const MAX_ROUTES: int := 1_000_000

  datatype BenchError =
    | TableTooLarge
    | ZeroClusters
    | NotAPowerOfTen
    | SingleRoute
    | CountOutOfRange
    | FileTooLarge
    | ManyPatterns
    | NoPattern
    | NotPrintable
    | NoMarker
    | PatternTooLong
    | BadExpression
    | ExpansionTooLong

  datatype Result<+T> = Ok(value: T) | Err(error: BenchError)

  // ----- index widths

  /** The integer logarithm of the standard library. */
  function ILog10(n: nat): (k: nat)
    requires n > 0
    ensures Pow10(k) <= n < Pow10(k + 1)
  {
    if n < 10 then assert Pow10(1) == 10 * Pow10(0); 0 else 1 + ILog10(n / 10)
  }

  function DigitWidth(maxIndex: nat): nat {
    if maxIndex == 0 then 1 else ILog10(maxIndex) + 1
  }

  /** The width is the number of digits of the largest index. */
  lemma {:induction false} DigitWidthIsLength(maxIndex: nat)
    ensures DigitWidth(maxIndex) == |Dec(maxIndex)|
  {
    if maxIndex >= 10 { DigitWidthIsLength(maxIndex / 10); }
  }

  lemma PowIncreasing(v: nat, w: nat)
    requires v < w
    ensures Pow10(v) < Pow10(w)
  {
    PowMono(v, w - 1);
  }

  lemma NinesLength(w: nat)
    requires w >= 1
    ensures |Dec(Pow10(w) - 1)| == w
  {
    hide Dec, Pow10;
    DecIsDigits(Pow10(w) - 1);
    DecLength(Pow10(w) - 1, w);
    if w >= 2 {
      DecLength(Pow10(w) - 1, w - 1);
      PowIncreasing(w - 1, w);
    }
  }

  /** The table renders 10^w routes with w digits, except for a single route. */
  lemma WidthsAgree(w: nat)
    ensures DigitWidth(Pow10(w) - 1) == w <==> w >= 1
  {
    hide Dec, Pow10, DigitWidth;
    if w >= 1 {
      DigitWidthIsLength(Pow10(w) - 1);
      NinesLength(w);
    } else {
      WidthOfOneRoute();
    }
  }

  lemma WidthOfOneRoute()
    ensures Pow10(0) == 1 && DigitWidth(0) == 1
  {
  }

  /** Multiplies up to the route count; the overflow exit only happens past it. */
  method PowerOfTenWidth(routes: nat) returns (r: Option<nat>)
    requires routes < U32_LIMIT
    ensures r.Some? ==> Pow10(r.value) == routes
    ensures r.None? ==> forall w: nat :: Pow10(w) != routes
  {
    if routes == 0 {
      return None;
    }
    var w, p := 0, 1;
    while true
      invariant p == Pow10(w) < U32_LIMIT
      invariant w > 0 ==> Pow10(w - 1) < routes
      decreases U32_LIMIT - p
    {
      if p == routes {
        return Some(w);
      }
      if p > routes {
        Skipped(routes, w);
        return None;
      }
      if p * 10 >= U32_LIMIT {
        Skipped(routes, w + 1);
        return None;
      }
      p, w := p * 10, w + 1;
    }
  }

  lemma Skipped(routes: nat, w: nat)
    requires Pow10(w) > routes && (w > 0 ==> Pow10(w - 1) < routes)
    ensures forall v: nat :: Pow10(v) != routes
  {
    forall v: nat ensures Pow10(v) != routes {
      if v < w { PowMono(v, w - 1); } else { PowMono(w, v); }
    }
  }

  // ----- the table

  /** Shapes whose routes differ in one index of fixed width. */
  datatype Shape = Flat | SharedPrefix | LastSegment

  datatype RouteShape = Linear(shape: Shape) | RealWorldMix

  datatype RouteSpec = RouteSpec(pattern: string, cluster: nat)

  function Prefix(shape: Shape): string {
    match shape
    case Flat => "/api/v1/r"
    case SharedPrefix => "/repos/acme/r"
    case LastSegment => "/api/v1/items/s"
  }

  function PatternTail(shape: Shape): string {
    match shape
    case Flat => "/{id}"
    case SharedPrefix => "/issues/{num}/(comments|reviews|files)"
    case LastSegment => ""
  }

  function Pattern(shape: Shape, i: nat, w: nat): string {
    Prefix(shape) + Pad(i, w) + PatternTail(shape)
  }

  function Route(shape: Shape, i: nat, w: nat, clusters: nat): RouteSpec
    requires clusters > 0
  {
    RouteSpec(Pattern(shape, i, w), i % clusters)
  }

  /** What a table of `n` routes holds. */
  predicate IsTable(shape: Shape, n: nat, clusters: nat, table: seq<RouteSpec>)
    requires clusters > 0
  {
    && |table| == n
    && forall i :: 0 <= i < n ==> table[i] == Route(shape, i, DigitWidth(n - 1), clusters)
  }

  method LinearTable(shape: Shape, n: nat, clusters: nat) returns (table: seq<RouteSpec>)
    requires n > 0 && clusters > 0
    ensures IsTable(shape, n, clusters, table)
  {
    hide Route, DigitWidth;
    var w := DigitWidth(n - 1);
    table := [];
    for i := 0 to n
      invariant |table| == i
      invariant forall k :: 0 <= k < i ==> table[k] == Route(shape, k, w, clusters)
    {
      table := table + [Route(shape, i, w, clusters)];
    }
  }

  // ----- the mixed shape

  const REAL_WORLD_SIZES: seq<nat> := [36, 217, 609]

  function AbsDiff(a: nat, b: nat): nat { if a < b then b - a else a - b }

  /** The nearest size; of two equally near ones the smaller. */
  predicate IsNearest(n: nat, size: nat) {
    && size in REAL_WORLD_SIZES
    && forall k :: 0 <= k < |REAL_WORLD_SIZES| ==>
         var other := REAL_WORLD_SIZES[k];
         AbsDiff(n, size) < AbsDiff(n, other) || (AbsDiff(n, size) == AbsDiff(n, other) && size <= other)
  }

  method NearestRealWorldSize(n: nat) returns (best: nat)
    ensures IsNearest(n, best)
  {
    best := REAL_WORLD_SIZES[0];
    for k := 1 to |REAL_WORLD_SIZES|
      invariant best in REAL_WORLD_SIZES[..k]
      invariant forall j :: 0 <= j < k ==>
        var other := REAL_WORLD_SIZES[j];
        AbsDiff(n, best) < AbsDiff(n, other) || (AbsDiff(n, best) == AbsDiff(n, other) && best <= other)
    {
      if AbsDiff(n, REAL_WORLD_SIZES[k]) < AbsDiff(n, best) {
        best := REAL_WORLD_SIZES[k];
      }
    }
  }

  function MixHead(i: nat): string { if i % 4 < 2 then "/v1/resources/r" else "/v1/accounts/a" }

  function MixTail(i: nat): string {
    match i % 4
    case 0 => ""
    case 1 => "/items/{id}"
    case 2 => "/profile"
    case _ => "/items/{id}/detail"
  }

  function MixPattern(i: nat): string { MixHead(i) + Dec(i) + MixTail(i) }

  function MixRoute(i: nat, clusters: nat): RouteSpec
    requires clusters > 0
  {
    RouteSpec(MixPattern(i), i % clusters)
  }

  predicate IsMixTable(n: nat, clusters: nat, table: seq<RouteSpec>)
    requires clusters > 0
  {
    && IsNearest(n, |table|)
    && forall i :: 0 <= i < |table| ==> table[i] == MixRoute(i, clusters)
  }

  method MixTable(n: nat, clusters: nat) returns (table: seq<RouteSpec>)
    requires clusters > 0
    ensures IsMixTable(n, clusters, table)
  {
    hide MixRoute, IsNearest;
    var resolved := NearestRealWorldSize(n);
    table := [];
    for i := 0 to resolved
      invariant |table| == i
      invariant forall k :: 0 <= k < i ==> table[k] == MixRoute(k, clusters)
    {
      table := table + [MixRoute(i, clusters)];
    }
  }

  lemma LastCharOf(a: string, b: string)
    requires b != []
    ensures (a + b)[|a + b| - 1] == b[|b| - 1]
  {
  }

  /** The four templates end in different characters. */
  lemma MixEnds(i: nat)
    ensures var p := MixPattern(i); p != [] && match i % 4
      case 0 => IsDigit(p[|p| - 1])
      case 1 => p[|p| - 1] == '}'
      case 2 => p[|p| - 1] == 'e'
      case _ => p[|p| - 1] == 'l'
  {
    DecIsDigits(i);
    hide Dec;
    if i % 4 == 0 {
      LastCharOf(MixHead(i), Dec(i));
      assert MixPattern(i) == MixHead(i) + Dec(i);
    } else {
      LastCharOf(MixHead(i) + Dec(i), MixTail(i));
    }
  }

  lemma DecBetween(head: string, i: nat, j: nat, tail: string)
    requires head + Dec(i) + tail == head + Dec(j) + tail
    ensures i == j
  {
    var a, b, k := Dec(i), Dec(j), |head|;
    assert |a| == |b|;
    assert (head + a + tail)[k..k + |a|] == a && (head + b + tail)[k..k + |b|] == b;
    ValDec(i);
    ValDec(j);
  }

  /** No two routes of a mixed table have the same pattern. */
  lemma MixPatternsDistinct(i: nat, j: nat)
    requires MixPattern(i) == MixPattern(j)
    ensures i == j
  {
    MixEnds(i);
    MixEnds(j);
    assert i % 4 == j % 4 by { hide MixPattern; }
    hide Dec;
    DecBetween(MixHead(i), i, j, MixTail(i));
  }

  /** Refused for too many routes, then for no clusters; otherwise the table of the shape. */
  predicate TableResult(shape: RouteShape, n: nat, clusters: nat, r: Result<seq<RouteSpec>>) {
    if n > 1_000_000 then r == Err(TableTooLarge)
    else if clusters == 0 then r == Err(ZeroClusters)
    else r.Ok? && match shape
      case RealWorldMix => IsMixTable(n, clusters, r.value)
      case Linear(linear) => IsTable(linear, n, clusters, r.value)
  }

  method BuildTable(shape: RouteShape, n: nat, clusters: nat) returns (r: Result<seq<RouteSpec>>)
    ensures TableResult(shape, n, clusters, r)
  {
    if n > MAX_ROUTES {
      return Err(TableTooLarge);
    }
    if clusters == 0 {
      return Err(ZeroClusters);
    }
    if shape.RealWorldMix? {
      var mix := MixTable(n, clusters);
      return Ok(mix);
    }
    if n == 0 {
      return Ok([]);
    }
    var table := LinearTable(shape.shape, n, clusters);
    return Ok(table);
  }

  lemma IndexWidth(n: nat, i: nat)
    requires i < n
    ensures |Pad(i, DigitWidth(n - 1))| == DigitWidth(n - 1) >= 1
  {
    var w := DigitWidth(n - 1);
    DigitWidthIsLength(n - 1);
    DecIsDigits(n - 1);
    DecLength(n - 1, w);
    PadLength(i, w);
  }

  /** No two routes of a table have the same pattern. */
  lemma PatternsDistinct(shape: Shape, n: nat, i: nat, j: nat)
    requires i < n && j < n
    requires Pattern(shape, i, DigitWidth(n - 1)) == Pattern(shape, j, DigitWidth(n - 1))
    ensures i == j
  {
    SameIndex(n, Prefix(shape), i, PatternTail(shape), j, PatternTail(shape));
  }

  lemma SameIndex(n: nat, prefix: string, i: nat, x: string, j: nat, y: string)
    requires i < n && j < n
    requires prefix + Pad(i, DigitWidth(n - 1)) + x == prefix + Pad(j, DigitWidth(n - 1)) + y
    ensures i == j
  {
    var w := DigitWidth(n - 1);
    var a, b, k := Pad(i, w), Pad(j, w), |prefix|;
    IndexWidth(n, i);
    IndexWidth(n, j);
    assert (prefix + a + x)[k..k + w] == a && (prefix + b + y)[k..k + w] == b;
    ValPad(i, w);
    ValPad(j, w);
  }

  // ----- which paths a route stands for

  const VERBS: seq<string> := ["comments", "reviews", "files"]

  /** What may follow the index in a path. */
  ghost predicate TailMatches(shape: Shape, tail: string) {
    match shape
    case Flat => exists id :: IsSegment(id) && tail == "/" + id
    case SharedPrefix =>
      exists num, verb :: IsSegment(num) && verb in VERBS && tail == "/issues/" + num + "/" + verb
    case LastSegment => tail == ""
  }

  lemma FlatTail(tail: string)
    ensures PathMatches(PatternTail(Flat), tail) <==> TailMatches(Flat, tail)
  {
    var placeholder := PlaceholderThen("id", "");
    assert PatternTail(Flat) == "/" + placeholder;
    hide PathMatches;
    PlainMatches("/", placeholder, tail);
    if |tail| >= 1 { LastPlaceholder("id", tail[1..]); }
    hide PlaceholderThen, PatternTail;
    if TailMatches(Flat, tail) {
      var id :| IsSegment(id) && tail == "/" + id;
      assert tail[1..] == id;
    }
    if PathMatches(PatternTail(Flat), tail) {
      assert tail == "/" + tail[1..];
    }
  }

  lemma VerbBars()
    ensures CorpusSyntax.BarsThen(VERBS) == VERB_WORDS
  {
    assert VERBS[1..] == ["reviews", "files"] && VERBS[1..][1..] == ["files"];
    assert CorpusSyntax.BarsThen(["reviews", "files"]) == "reviews" + (['|'] + "files");
    VerbGroupText();
  }

  lemma VerbGroupWords()
    ensures ')' !in VERB_WORDS && Split(VERB_WORDS, '|') == VERBS
  {
    VerbBars();
    VerbsAreLiteral();
    hide AllLiteral, CorpusSyntax.BarsThen, Split;
    CorpusSyntax.BarsComplete(VERBS);
    NoParenthesis();
  }

  lemma NoParenthesis()
    ensures ')' !in VERB_WORDS
  {
  }

  lemma VerbGroupText()
    ensures "comments" + (['|'] + ("reviews" + (['|'] + "files"))) == "comments|reviews|files"
  {
  }

  lemma VerbsAreLiteral()
    ensures forall i :: 0 <= i < |VERBS| ==> AllLiteral(VERBS[i])
  {
    assert AllLiteral("comments") && AllLiteral("reviews") && AllLiteral("files");
  }

  const VERB_WORDS: string := "comments|reviews|files"

  lemma VerbGroupInText()
    ensures GroupThen(VERB_WORDS, "") == "(comments|reviews|files)"
  {
  }

  lemma PlaceholderText(rest: string)
    ensures PlaceholderThen("num", rest) == "{num}" + rest
  {
  }

  lemma SharedTailEnd()
    ensures PatternTail(SharedPrefix)[14..] == "(comments|reviews|files)"
  {
  }

  lemma SharedTailStart()
    ensures |PatternTail(SharedPrefix)| == 38 && PatternTail(SharedPrefix)[..14] == "/issues/{num}/"
  {
  }

  lemma SharedTailHead(rest: string)
    ensures "/issues/{num}/" + rest == "/issues/" + PlaceholderThen("num", "/" + rest)
  {
    assert "/issues/" + "{num}" + "/" == "/issues/{num}/";
    PlaceholderText("/" + rest);
    hide PlaceholderThen;
    assert "/issues/" + ("{num}" + ("/" + rest)) == "/issues/" + "{num}" + "/" + rest;
  }

  lemma SharedTailText()
    ensures PatternTail(SharedPrefix) == SegmentAndWord("/issues/", "num", "/", VERB_WORDS)
  {
    SharedTailStart();
    SharedTailEnd();
    VerbGroupInText();
    hide GroupThen, PlaceholderThen, PatternTail;
    SharedTailHead(GroupThen(VERB_WORDS, ""));
    var t := PatternTail(SharedPrefix);
    assert t == t[..14] + t[14..];
  }

  lemma SharedTail(tail: string)
    ensures PathMatches(PatternTail(SharedPrefix), tail) <==> TailMatches(SharedPrefix, tail)
  {
    SharedTailText();
    VerbGroupWords();
    hide PathMatches, Split, SegmentAndWord, PatternTail;
    if PathMatches(PatternTail(SharedPrefix), tail) {
      var num, verb := SegmentAndWordSound("/issues/", "num", "/", VERB_WORDS, tail);
    }
    if TailMatches(SharedPrefix, tail) {
      var num, verb :| IsSegment(num) && verb in VERBS && tail == "/issues/" + num + "/" + verb;
      SegmentAndWordComplete("/issues/", "num", "/", VERB_WORDS, num, verb);
    }
  }

  /** The tail of a pattern matches exactly these tails. */
  lemma TailMeans(shape: Shape, tail: string)
    ensures PathMatches(PatternTail(shape), tail) <==> TailMatches(shape, tail)
  {
    match shape {
      case Flat => FlatTail(tail);
      case SharedPrefix => SharedTail(tail);
      case LastSegment => EndMatches(tail);
    }
  }

  lemma HeadIsPlain(shape: Shape, i: nat, w: nat)
    ensures IsPlain(Prefix(shape) + Pad(i, w))
  {
    ValPad(i, w);
    forall k | 0 <= k < |Pad(i, w)| ensures Pad(i, w)[k] != '{' && Pad(i, w)[k] != '(' {
      assert IsDigit(Pad(i, w)[k]);
    }
    PrefixHasNoBrace(shape);
    hide Pad, Prefix;
  }

  lemma PrefixHasNoBrace(shape: Shape)
    ensures IsPlain(Prefix(shape))
  {
  }

  /** A path matches the pattern of route i exactly when it is the prefix, the index and such a tail. */
  lemma PatternMeans(shape: Shape, i: nat, w: nat, path: string)
    ensures PathMatches(Pattern(shape, i, w), path)
       <==> exists tail :: TailMatches(shape, tail) && path == Prefix(shape) + Pad(i, w) + tail
  {
    hide PathMatches, TailMatches, PatternTail, Prefix, Pad;
    var head := Prefix(shape) + Pad(i, w);
    HeadIsPlain(shape, i, w);
    PlainMatches(head, PatternTail(shape), path);
    if PathMatches(Pattern(shape, i, w), path) {
      var tail := path[|head|..];
      TailMeans(shape, tail);
      assert path == head + tail;
    }
    forall tail | TailMatches(shape, tail) && path == head + tail ensures PathMatches(Pattern(shape, i, w), path) {
      TailMeans(shape, tail);
      assert path[|head|..] == tail;
    }
  }

  lemma MatchFrom(shape: Shape, i: nat, w: nat, tail: string)
    requires TailMatches(shape, tail)
    ensures PathMatches(Pattern(shape, i, w), Prefix(shape) + Pad(i, w) + tail)
  {
    hide PathMatches, TailMatches, Pattern, Prefix, Pad;
    PatternMeans(shape, i, w, Prefix(shape) + Pad(i, w) + tail);
  }

  /** A path matches at most one route of a table, for every table size. */
  lemma MatchesAtMostOne(shape: Shape, n: nat, clusters: nat, table: seq<RouteSpec>, i: nat, j: nat, path: string)
    requires clusters > 0 && IsTable(shape, n, clusters, table) && i < n && j < n
    requires PathMatches(table[i].pattern, path) && PathMatches(table[j].pattern, path)
    ensures i == j
  {
    hide PathMatches, TailMatches, Prefix, Pad, DigitWidth, Pattern;
    var w := DigitWidth(n - 1);
    PatternMeans(shape, i, w, path);
    PatternMeans(shape, j, w, path);
    var x :| TailMatches(shape, x) && path == Prefix(shape) + Pad(i, w) + x;
    var y :| TailMatches(shape, y) && path == Prefix(shape) + Pad(j, w) + y;
    SameIndex(n, Prefix(shape), i, x, j, y);
  }

  ghost predicate MatchesExactlyOne(table: seq<RouteSpec>, path: string) {
    exists i :: 0 <= i < |table| && PathMatches(table[i].pattern, path) &&
                forall j :: 0 <= j < |table| && PathMatches(table[j].pattern, path) ==> j == i
  }

  lemma ExactlyOne(shape: Shape, n: nat, clusters: nat, table: seq<RouteSpec>, i: nat, path: string)
    requires clusters > 0 && IsTable(shape, n, clusters, table) && i < n && PathMatches(table[i].pattern, path)
    ensures MatchesExactlyOne(table, path)
  {
    hide PathMatches;
    forall j | 0 <= j < |table| && PathMatches(table[j].pattern, path) ensures j == i {
      MatchesAtMostOne(shape, n, clusters, table, i, j, path);
    }
  }

  // ----- clusters, and the mixed table

  lemma NextRemainder(i: nat, k: nat)
    requires k > 0
    ensures 0 % k == 0 && (i + 1) % k == if i % k + 1 == k then 0 else i % k + 1
  {
    DivModDef(i, k);
    DivModUnique(0, k, 0, 0);
    var q, r := i / k, i % k;
    if r + 1 == k {
      assert k * (q + 1) == k * q + k;
      DivModUnique(i + 1, k, q + 1, 0);
    } else {
      DivModUnique(i + 1, k, q, r + 1);
    }
  }

  /** Routes take their clusters in turn, from the first. */
  predicate InTurn(table: seq<RouteSpec>, clusters: nat) {
    && (table != [] ==> table[0].cluster == 0)
    && forall i :: 0 <= i < |table| - 1 ==>
         table[i + 1].cluster == if table[i].cluster + 1 == clusters then 0 else table[i].cluster + 1
  }

  lemma ClustersInTurn(shape: RouteShape, n: nat, clusters: nat, r: Result<seq<RouteSpec>>)
    requires TableResult(shape, n, clusters, r) && r.Ok?
    ensures InTurn(r.value, clusters)
  {
    var table := r.value;
    assert forall i :: 0 <= i < |table| ==> table[i].cluster == i % clusters by {
      hide Pattern, MixPattern, IsNearest, DigitWidth;
    }
    hide TableResult;
    if table != [] { NextRemainder(0, clusters); }
    forall i | 0 <= i < |table| - 1
      ensures table[i + 1].cluster == if table[i].cluster + 1 == clusters then 0 else table[i].cluster + 1
    {
      NextRemainder(i, clusters);
    }
  }

  /** Where the nearest size changes; 413 is as far from 217 as from 609. */
  lemma NearestIs(n: nat, size: nat)
    ensures IsNearest(n, size) <==> size == if n <= 126 then 36 else if n <= 413 then 217 else 609
  {
    assert REAL_WORLD_SIZES[0] == 36 && REAL_WORLD_SIZES[1] == 217 && REAL_WORLD_SIZES[2] == 609;
  }

  lemma MixHeadPlain(i: nat)
    ensures IsPlain(MixHead(i) + Dec(i))
  {
    ValDec(i);
    forall k | 0 <= k < |Dec(i)| ensures Dec(i)[k] != '{' && Dec(i)[k] != '(' {
      assert IsDigit(Dec(i)[k]);
    }
    assert IsPlain(MixHead(i));
    hide Dec, MixHead;
  }

  lemma MixTailMatch(i: nat, tail: string)
    requires PathMatches(MixTail(i), tail)
    ensures tail == "" || tail[0] == '/'
  {
  }

  lemma MixMatchForm(i: nat, path: string) returns (tail: string)
    requires PathMatches(MixPattern(i), path)
    ensures path == MixHead(i) + Dec(i) + tail && (tail == "" || tail[0] == '/')
  {
    MixHeadPlain(i);
    hide PathMatches, MixHead, MixTail, Dec, IsPlain;
    tail := AfterPlain(MixHead(i) + Dec(i), MixTail(i), path);
    MixTailMatch(i, tail);
  }

  lemma DigitsEnd(a: string, x: string, t: string)
    requires AllDigits(a) && t == a + x && (x == "" || x[0] == '/')
    ensures |a| <= |t| && t[..|a|] == a
    ensures (forall k :: 0 <= k < |a| ==> IsDigit(t[k])) && (|a| < |t| ==> !IsDigit(t[|a|]))
  {
  }

  /** Digits are read to the first character that is none. */
  lemma SameDigits(a: string, x: string, b: string, y: string)
    requires AllDigits(a) && AllDigits(b) && a + x == b + y
    requires (x == "" || x[0] == '/') && (y == "" || y[0] == '/')
    ensures a == b
  {
    var t := a + x;
    DigitsEnd(a, x, t);
    DigitsEnd(b, y, t);
    assert |a| == |b|;
  }

  lemma MixHeadsDiffer(i: nat, x: string, j: nat, y: string)
    requires MixHead(i) + x == MixHead(j) + y
    ensures MixHead(i) == MixHead(j) && x == y
  {
    assert (MixHead(i) + x)[4] == MixHead(i)[4] && (MixHead(j) + y)[4] == MixHead(j)[4];
    var k := |MixHead(i)|;
    assert (MixHead(i) + x)[k..] == x;
    if MixHead(i) == MixHead(j) { assert (MixHead(j) + y)[k..] == y; }
  }

  /** A path matches at most one route of a mixed table, whatever its size. */
  lemma MixMatchesAtMostOne(i: nat, j: nat, path: string)
    requires PathMatches(MixPattern(i), path) && PathMatches(MixPattern(j), path)
    ensures i == j
  {
    hide PathMatches, MixPattern, MixHead, Dec;
    var x := MixMatchForm(i, path);
    var y := MixMatchForm(j, path);
    assert path == MixHead(i) + (Dec(i) + x) && path == MixHead(j) + (Dec(j) + y);
    MixHeadsDiffer(i, Dec(i) + x, j, Dec(j) + y);
    ValDec(i);
    ValDec(j);
    SameDigits(Dec(i), x, Dec(j), y);
  }

  /** The first four routes of the mixed table, one for each template. */
  lemma MixTexts()
    ensures MixPattern(0) == "/v1/resources/r" + "0" + ""
    ensures MixPattern(1) == "/v1/resources/r" + "1" + "/items/{id}"
    ensures MixPattern(2) == "/v1/accounts/a" + "2" + "/profile"
    ensures MixPattern(3) == "/v1/accounts/a" + "3" + "/items/{id}/detail"
  {
    assert Dec(0) == "0" && Dec(1) == "1" && Dec(2) == "2" && Dec(3) == "3";
    hide Dec;
  }

  // ----- depth

  /** How many separators a path or a pattern has. */
  function Slashes(s: string): nat {
    if s == [] then 0 else (if s[0] == '/' then 1 else 0) + Slashes(s[1..])
  }

  lemma {:induction false} SlashesConcat(a: string, b: string)
    ensures Slashes(a + b) == Slashes(a) + Slashes(b)
  {
    if a == [] {
      assert a + b == b;
    } else {
      assert (a + b)[0] == a[0] && (a + b)[1..] == a[1..] + b;
      SlashesConcat(a[1..], b);
    }
  }

  lemma {:induction false} NoSlashes(s: string)
    requires '/' !in s
    ensures Slashes(s) == 0
  {
    if s != [] {
      assert s[0] in s;
      NoSlashes(s[1..]);
    }
  }

  lemma VerbsHaveNoSlash(verb: string)
    requires verb in VERBS
    ensures '/' !in verb
  {
    assert '/' !in "comments" && '/' !in "reviews" && '/' !in "files";
  }

  lemma TailSlashes(shape: Shape, tail: string)
    requires TailMatches(shape, tail)
    ensures Slashes(tail) == match shape case Flat => 1 case SharedPrefix => 3 case LastSegment => 0
  {
    match shape {
      case Flat =>
        var id :| IsSegment(id) && tail == "/" + id;
        NoSlashes(id);
        SlashesConcat("/", id);
        assert Slashes("/") == 1;
      case SharedPrefix =>
        var num, verb :| IsSegment(num) && verb in VERBS && tail == "/issues/" + num + "/" + verb;
        VerbsHaveNoSlash(verb);
        NoSlashes(num);
        NoSlashes(verb);
        IssuesSlashes();
        hide Slashes;
        SlashesConcat("/issues/", num);
        SlashesConcat("/issues/" + num, "/");
        SlashesConcat("/issues/" + num + "/", verb);
      case LastSegment =>
    }
  }

  lemma IssuesSlashes()
    ensures Slashes("/issues/") == 2 && Slashes("/") == 1
  {
    assert "/issues/" == "/" + ("issues" + "/");
    assert '/' !in "issues" && Slashes("/") == 1;
    hide Slashes;
    NoSlashes("issues");
    SlashesConcat("issues", "/");
    SlashesConcat("/", "issues" + "/");
  }

  /** A placeholder and a group hold no separator if their texts do not. */
  lemma EnclosedSlashes(open: char, text: string, close: char, rest: string)
    requires '/' !in text && open != '/' && close != '/'
    ensures Slashes([open] + (text + ([close] + rest))) == Slashes(rest)
  {
    NoSlashes(text);
    assert ([close] + rest)[1..] == rest;
    assert ([open] + (text + ([close] + rest)))[1..] == text + ([close] + rest);
    SlashesConcat(text, [close] + rest);
  }

  lemma NoSlashInside()
    ensures '/' !in VERB_WORDS && '/' !in "num" && '/' !in "id"
  {
  }

  lemma PatternTailSlashes(shape: Shape)
    ensures Slashes(PatternTail(shape)) == match shape case Flat => 1 case SharedPrefix => 3 case LastSegment => 0
  {
    match shape {
      case Flat =>
        assert PatternTail(Flat) == "/" + (['{'] + ("id" + (['}'] + "")));
        NoSlashInside();
        IssuesSlashes();
        EnclosedSlashes('{', "id", '}', "");
        SlashesConcat("/", ['{'] + ("id" + (['}'] + "")));
      case SharedPrefix =>
        SharedTailText();
        NoSlashInside();
        IssuesSlashes();
        assert Slashes("") == 0;
        hide Slashes, PatternTail;
        EnclosedSlashes('(', VERB_WORDS, ')', "");
        SlashesConcat("/", GroupThen(VERB_WORDS, ""));
        EnclosedSlashes('{', "num", '}', "/" + GroupThen(VERB_WORDS, ""));
        SlashesConcat("/issues/", PlaceholderThen("num", "/" + GroupThen(VERB_WORDS, "")));
      case LastSegment =>
    }
  }

  /** A path has as many segments as the pattern it matches. */
  lemma SameDepth(shape: Shape, i: nat, w: nat, path: string)
    requires PathMatches(Pattern(shape, i, w), path)
    ensures Slashes(path) == Slashes(Pattern(shape, i, w))
  {
    PatternMeans(shape, i, w, path);
    hide Slashes, PathMatches, TailMatches, PatternTail, Prefix, Pad;
    var head := Prefix(shape) + Pad(i, w);
    var tail :| TailMatches(shape, tail) && path == Prefix(shape) + Pad(i, w) + tail;
    TailSlashes(shape, tail);
    PatternTailSlashes(shape);
    SlashesConcat(head, tail);
    SlashesConcat(head, PatternTail(shape));
  }
}
