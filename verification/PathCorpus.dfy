/** The path corpora: the expression each one expands for a route count, and the agreement between
    the words of that expression and the routes of the paired table. */
module PathCorpus {
  import opened Decimal
  import opened CorpusGrammar
  import opened Wrappers
  import opened CorpusExpansion
  import opened RouteTable
  import opened RoutePattern
  import opened CorpusFile
  import CorpusSyntax

  datatype Corpus = SingleHot | UniformRandom | AdversarialWorstCase

  function ClassText(members: string, body: string): string { "[" + members + "]{" + body + "}" }

  /** Three alternatives in parentheses. */
  function GroupText(a: string, b: string, c: string): string {
    ['('] + ((a + (['|'] + (b + (['|'] + c)))) + ([')'] + ""))
  }

  const VERB_GROUP: string := GroupText("comments", "reviews", "files")

  function TailText(shape: Shape): string {
    match shape
    case Flat => "/" + (ClassText("0-9a-f", "8") + "")
    case SharedPrefix => "/issues/" + (ClassText("0-9", "1,6") + ("/" + VERB_GROUP))
    case LastSegment => ""
  }

  /** The pattern line of a committed corpus file, around the repetition of its index digit. */
  function FilePattern(shape: Shape, count: string): string {
    (Prefix(shape) + "[0-9]") + (count + TailText(shape))
  }

  lemma ClassTexts()
    ensures ClassText("0-9a-f", "8") == "[0-9a-f]{8}" && ClassText("0-9", "1,6") == "[0-9]{1,6}"
  {
  }

  lemma VerbGroupSpelled()
    ensures VERB_GROUP == "(comments|reviews|files)"
  {
  }

  /** The pattern lines as they stand in the two files. */
  lemma CommittedLines()
    ensures FilePattern(Flat, "{3}") == "/api/v1/r[0-9]{3}/[0-9a-f]{8}"
    ensures FilePattern(SharedPrefix, "{3}") == "/repos/acme/r[0-9]{3}/issues/[0-9]{1,6}/(comments|reviews|files)"
  {
    FlatFileLine();
    SharedFileLine();
    hide FilePattern;
  }

  lemma Glue(a: string, b: string, whole: string)
    requires |a| + |b| == |whole| && whole[..|a|] == a && whole[|a|..] == b
    ensures a + b == whole
  {
  }

  lemma FlatParts()
    ensures "/api/v1/r[0-9]" + ("{3}" + "/[0-9a-f]{8}") == "/api/v1/r[0-9]{3}/[0-9a-f]{8}"
  {
    var whole := "/api/v1/r[0-9]{3}/[0-9a-f]{8}";
    assert "{3}" + "/[0-9a-f]{8}" == "{3}/[0-9a-f]{8}";
    assert whole[..14] == "/api/v1/r[0-9]" && whole[14..] == "{3}/[0-9a-f]{8}";
    Glue("/api/v1/r[0-9]", "{3}/[0-9a-f]{8}", whole);
  }

  lemma FlatFileLine()
    ensures FilePattern(Flat, "{3}") == "/api/v1/r[0-9]{3}/[0-9a-f]{8}"
  {
    FlatParts();
    ClassTexts();
    FlatPrefixAndTail();
    hide ClassText, Prefix;
  }

  lemma FlatPrefixAndTail()
    ensures Prefix(Flat) + "[0-9]" == "/api/v1/r[0-9]" && "/" + ("[0-9a-f]{8}" + "") == "/[0-9a-f]{8}"
  {
  }

  lemma SharedHead()
    ensures Prefix(SharedPrefix) + "[0-9]" == "/repos/acme/r[0-9]"
    ensures "/repos/acme/r[0-9]" + "{3}" == "/repos/acme/r[0-9]{3}"
  {
  }

  lemma SharedMiddle()
    ensures "/issues/" + "[0-9]{1,6}" + "/" == "/issues/[0-9]{1,6}/"
  {
  }

  lemma SharedStart()
    ensures "/repos/acme/r[0-9]{3}" + "/issues/[0-9]{1,6}/" == "/repos/acme/r[0-9]{3}/issues/[0-9]{1,6}/"
  {
    var whole := "/repos/acme/r[0-9]{3}/issues/[0-9]{1,6}/";
    assert |whole| == 40 && whole[..21] == "/repos/acme/r[0-9]{3}";
    assert whole[21..] == "/issues/[0-9]{1,6}/";
    Glue("/repos/acme/r[0-9]{3}", "/issues/[0-9]{1,6}/", whole);
  }

  lemma SharedLineStart()
    ensures var whole := "/repos/acme/r[0-9]{3}/issues/[0-9]{1,6}/(comments|reviews|files)";
      |whole| == 64 && whole[..40] == "/repos/acme/r[0-9]{3}/issues/[0-9]{1,6}/"
  {
  }

  lemma SharedLineEnd()
    ensures var whole := "/repos/acme/r[0-9]{3}/issues/[0-9]{1,6}/(comments|reviews|files)";
      |whole| == 64 && whole[40..] == "(comments|reviews|files)"
  {
  }

  lemma SharedEnd()
    ensures "/repos/acme/r[0-9]{3}/issues/[0-9]{1,6}/" + "(comments|reviews|files)"
         == "/repos/acme/r[0-9]{3}/issues/[0-9]{1,6}/(comments|reviews|files)"
  {
    var whole := "/repos/acme/r[0-9]{3}/issues/[0-9]{1,6}/(comments|reviews|files)";
    SharedLineStart();
    SharedLineEnd();
    Glue("/repos/acme/r[0-9]{3}/issues/[0-9]{1,6}/", "(comments|reviews|files)", whole);
  }

  lemma Regrouped(a: string, b: string, c: string, d: string, e: string, f: string)
    ensures a + (b + (c + (d + (e + f)))) == (a + b) + (c + d + e) + f
  {
  }

  lemma SharedFileLine()
    ensures FilePattern(SharedPrefix, "{3}") == "/repos/acme/r[0-9]{3}/issues/[0-9]{1,6}/(comments|reviews|files)"
  {
    SharedHead();
    SharedMiddle();
    SharedStart();
    SharedEnd();
    ClassTexts();
    VerbGroupSpelled();
    hide ClassText, GroupText, Prefix;
    Regrouped(Prefix(SharedPrefix) + "[0-9]", "{3}", "/issues/", "[0-9]{1,6}", "/", "(comments|reviews|files)");
  }

  /** The table shape a corpus is paired with. */
  function ShapeOf(corpus: Corpus): Shape {
    if corpus.AdversarialWorstCase? then SharedPrefix else Flat
  }

  /** The expression of a corpus at index width `w`. */
  function ExprOf(corpus: Corpus, w: nat): string {
    if corpus.SingleHot? then Prefix(Flat) + Pad(0, w) + "/00000000"
    else FilePattern(ShapeOf(corpus), Braced(w))
  }

  lemma MarkerReplaced(shape: Shape, w: nat)
    ensures ReplaceMarker(FilePattern(shape, "{3}"), w) == Some(FilePattern(shape, Braced(w)))
  {
    hide ReplaceMarker, Braced, TailText;
    ReplaceAt(Prefix(shape) + "[0-9]", TailText(shape), w);
  }

  // ----- the elements of an expression

  const DIGITS: string := Span('0', '9')
  const HEX: string := Span('0', '9') + Span('a', 'f')

  function Fixed(bytes: string): Elem { Literal(bytes, 1, 1) }

  function TailElems(shape: Shape): seq<Elem> {
    match shape
    case Flat => [Fixed("/")] + ([Class(HEX, 8, 8)] + [])
    case SharedPrefix => [Fixed("/issues/")] + ([Class(DIGITS, 1, 6)] + ([Fixed("/")] + ([Alt(VERBS)] + [])))
    case LastSegment => []
  }

  function FileElems(shape: Shape, w: nat): seq<Elem> {
    [Fixed(Prefix(shape))] + ([Class(DIGITS, w, w)] + TailElems(shape))
  }

  function ElemsOf(corpus: Corpus, w: nat): seq<Elem> {
    if corpus.SingleHot? then [Fixed(ExprOf(SingleHot, w))] else FileElems(ShapeOf(corpus), w)
  }

  // ----- parsing the expressions

  lemma ExactCount(n: nat)
    requires n <= MAX_COUNTED_REPEAT
    ensures var r := CorpusSyntax.Braces(n, n);
      CorpusSyntax.RepOk(r) && !r.Once? && CorpusSyntax.RepBody(r) == Dec(n) && CorpusSyntax.Counts(r) == (n, n)
  {
    CorpusSyntax.BracesOk(n, n);
    hide Dec, Val;
  }

  lemma RangeCount()
    ensures var r := CorpusSyntax.Braces(1, 6);
      CorpusSyntax.RepOk(r) && !r.Once? && CorpusSyntax.RepBody(r) == "1,6" && CorpusSyntax.Counts(r) == (1, 6)
  {
    CorpusSyntax.BracesOk(1, 6);
    assert Dec(1) == "1" && Dec(6) == "6";
    assert "1" + ([','] + "6") == "1,6";
  }

  const DIGIT_MEMBERS: seq<CorpusSyntax.Member> := [CorpusSyntax.Range('0', '9')]
  const HEX_MEMBERS: seq<CorpusSyntax.Member> := [CorpusSyntax.Range('0', '9'), CorpusSyntax.Range('a', 'f')]

  lemma DigitMembers()
    ensures CorpusSyntax.MembersOk(DIGIT_MEMBERS) && CorpusSyntax.MembersText(DIGIT_MEMBERS) == "0-9"
    ensures CorpusSyntax.Alphabet(DIGIT_MEMBERS) == DIGITS
  {
    assert DIGIT_MEMBERS[1..] == [];
    assert DIGITS + "" == DIGITS;
  }

  lemma HexMembers()
    ensures CorpusSyntax.MembersOk(HEX_MEMBERS) && CorpusSyntax.MembersText(HEX_MEMBERS) == "0-9a-f"
    ensures CorpusSyntax.Alphabet(HEX_MEMBERS) == HEX
  {
    var more := [CorpusSyntax.Range('a', 'f')];
    assert HEX_MEMBERS[1..] == more && more[1..] == [];
    assert Span('a', 'f') + "" == Span('a', 'f');
  }

  /** A parsed text: it belongs to well-formed syntax with the given meaning. */
  ghost predicate Denotes(s: string, es: seq<Elem>) {
    exists xs :: CorpusSyntax.WellFormed(xs) && CorpusSyntax.Text(xs) == s && CorpusSyntax.Meanings(xs) == es
  }

  lemma DenotesParses(s: string, es: seq<Elem>)
    requires Denotes(s, es)
    ensures Bytes(s) && ParseElems(s) == Some(es)
  {
    var xs :| CorpusSyntax.WellFormed(xs) && CorpusSyntax.Text(xs) == s && CorpusSyntax.Meanings(xs) == es;
    CorpusSyntax.TextComplete(xs);
  }

  lemma DenotesEmpty()
    ensures Denotes("", [])
  {
    var xs: seq<CorpusSyntax.Syntax> := [];
    assert CorpusSyntax.WellFormed(xs) && CorpusSyntax.Text(xs) == "" && CorpusSyntax.Meanings(xs) == [];
  }

  lemma DenotesCons(x: CorpusSyntax.Syntax, s: string, es: seq<Elem>)
    requires CorpusSyntax.SyntaxOk(x) && Denotes(s, es) && CorpusSyntax.EndsBefore(x, s)
    ensures Denotes(CorpusSyntax.ElemThen(x, s), [CorpusSyntax.Meaning(x)] + es)
  {
    var xs :| CorpusSyntax.WellFormed(xs) && CorpusSyntax.Text(xs) == s && CorpusSyntax.Meanings(xs) == es;
    CorpusSyntax.Cons(x, xs);
  }

  lemma DenotesRun(bytes: string, s: string, es: seq<Elem>)
    requires bytes != [] && AllLiteral(bytes) && Denotes(s, es)
    requires s != [] ==> s[0] != '{' && !IsLiteral(s[0])
    ensures Denotes(bytes + s, [Fixed(bytes)] + es)
  {
    hide Denotes;
    DenotesCons(CorpusSyntax.Run(bytes, CorpusSyntax.Once), s, es);
  }

  lemma ClassTextThen(text: string, body: string, s: string)
    ensures ClassText(text, body) + s == ['['] + (text + ([']'] + (['{'] + (body + (['}'] + s)))))
  {
  }

  lemma DenotesSet(ms: seq<CorpusSyntax.Member>, r: CorpusSyntax.Rep, s: string, es: seq<Elem>)
    requires ms != [] && CorpusSyntax.MembersOk(ms) && !CorpusSyntax.Starts(CorpusSyntax.MembersText(ms), '^')
    requires CorpusSyntax.RepOk(r) && !r.Once? && Denotes(s, es)
    ensures var (n, m) := CorpusSyntax.Counts(r);
            Denotes(ClassText(CorpusSyntax.MembersText(ms), CorpusSyntax.RepBody(r)) + s,
                    [Class(CorpusSyntax.Alphabet(ms), n, m)] + es)
  {
    hide Denotes, ClassText, CorpusSyntax.MembersText, CorpusSyntax.MembersOk;
    hide CorpusSyntax.RepOk, CorpusSyntax.RepBody, CorpusSyntax.Counts;
    var x := CorpusSyntax.Set(ms, r);
    DenotesCons(x, s, es);
    ClassTextThen(CorpusSyntax.MembersText(ms), CorpusSyntax.RepBody(r), s);
  }

  /** A class text is no continuation of a literal run. */
  lemma ClassTextStarts(text: string, body: string, s: string)
    ensures ClassText(text, body) + s != [] && (ClassText(text, body) + s)[0] == '['
  {
  }

  lemma VerbsDenote()
    ensures Denotes(VERB_GROUP, [Alt(VERBS)] + [])
  {
    DenotesEmpty();
    BarsOfThree("comments", "reviews", "files");
    VerbsAreAlternatives();
    hide Denotes, CorpusSyntax.BarsThen, GroupText, AreAlternatives;
    DenotesCons(CorpusSyntax.Choice(VERBS), "", []);
  }

  lemma BarsOfThree(a: string, b: string, c: string)
    ensures ['('] + (CorpusSyntax.BarsThen([a, b, c]) + ([')'] + "")) == GroupText(a, b, c)
  {
    assert [a, b, c][1..] == [b, c] && [b, c][1..] == [c];
    assert CorpusSyntax.BarsThen([b, c]) == b + (['|'] + c);
  }

  lemma VerbsAreAlternatives()
    ensures AreAlternatives(VERBS)
  {
    assert IsAlternative("comments") && IsAlternative("reviews") && IsAlternative("files");
  }

  lemma FlatTailDenotes()
    ensures Denotes(TailText(Flat), TailElems(Flat))
  {
    assert Dec(8) == "8";
    ExactCount(8);
    HexMembers();
    DenotesEmpty();
    hide Denotes, Dec, ClassText, CorpusSyntax.Braces, CorpusSyntax.RepBody, CorpusSyntax.Counts, CorpusSyntax.RepOk;
    DenotesSet(HEX_MEMBERS, CorpusSyntax.Braces(8, 8), "", []);
    ClassTextStarts("0-9a-f", "8", "");
    DenotesRun("/", ClassText("0-9a-f", "8") + "", [Class(HEX, 8, 8)] + []);
  }

  lemma SharedTailDenotes()
    ensures Denotes(TailText(SharedPrefix), TailElems(SharedPrefix))
  {
    VerbsDenote();
    RangeCount();
    DigitMembers();
    hide Denotes, ClassText, CorpusSyntax.Braces, CorpusSyntax.RepBody, CorpusSyntax.Counts, CorpusSyntax.RepOk;
    var es := [Alt(VERBS)] + [];
    DenotesRun("/", VERB_GROUP, es);
    DenotesSet(DIGIT_MEMBERS, CorpusSyntax.Braces(1, 6), "/" + VERB_GROUP, [Fixed("/")] + es);
    ClassTextStarts("0-9", "1,6", "/" + VERB_GROUP);
    DenotesRun("/issues/", ClassText("0-9", "1,6") + ("/" + VERB_GROUP),
               [Class(DIGITS, 1, 6)] + ([Fixed("/")] + es));
  }

  lemma PatternGroups(prefix: string, w: nat, tail: string)
    ensures (prefix + "[0-9]") + (Braced(w) + tail) == prefix + (ClassText("0-9", Dec(w)) + tail)
  {
    hide Dec;
    assert "[0-9]" + Braced(w) == ClassText("0-9", Dec(w));
    assert (prefix + "[0-9]") + (Braced(w) + tail) == prefix + (("[0-9]" + Braced(w)) + tail);
  }

  lemma LiteralParts(a: string, b: string)
    requires AllLiteral(a) && AllLiteral(b)
    ensures AllLiteral(a + b)
  {
  }

  lemma PrefixIsLiteral(shape: Shape)
    ensures AllLiteral(Prefix(shape)) && Prefix(shape) != []
  {
    hide AllLiteral;
    match shape {
      case Flat => FlatPrefixIsLiteral();
      case SharedPrefix => SharedPrefixIsLiteral();
      case LastSegment => LastSegmentIsLiteral();
    }
  }

  lemma FlatPrefixIsLiteral()
    ensures AllLiteral("/api/v1/r")
  {
  }

  lemma SharedPrefixIsLiteral()
    ensures AllLiteral("/repos/acme/r")
  {
  }

  lemma LastSegmentIsLiteral()
    ensures AllLiteral("/api/v1/items/s")
  {
  }

  lemma FileDenotes(shape: Shape, w: nat)
    requires w <= MAX_COUNTED_REPEAT && Denotes(TailText(shape), TailElems(shape))
    ensures Denotes(FilePattern(shape, Braced(w)), FileElems(shape, w))
  {
    ExactCount(w);
    DigitMembers();
    PrefixIsLiteral(shape);
    hide Denotes, TailElems, TailText, Dec, ClassText, Braced, Prefix, Span;
    hide CorpusSyntax.Braces, CorpusSyntax.RepBody, CorpusSyntax.Counts, CorpusSyntax.RepOk;
    hide CorpusSyntax.MembersText, CorpusSyntax.MembersOk, CorpusSyntax.Alphabet, AllLiteral;
    DenotesSet(DIGIT_MEMBERS, CorpusSyntax.Braces(w, w), TailText(shape), TailElems(shape));
    ClassTextStarts("0-9", Dec(w), TailText(shape));
    DenotesRun(Prefix(shape), ClassText("0-9", Dec(w)) + TailText(shape), [Class(DIGITS, w, w)] + TailElems(shape));
    PatternGroups(Prefix(shape), w, TailText(shape));
  }

  lemma HotIsLiteral(w: nat)
    ensures ExprOf(SingleHot, w) != [] && AllLiteral(ExprOf(SingleHot, w))
  {
    ValPad(0, w);
    assert AllLiteral(Pad(0, w)) && AllLiteral("/00000000");
    PrefixIsLiteral(Flat);
    hide Pad, Prefix, AllLiteral;
    LiteralParts(Prefix(Flat), Pad(0, w));
    LiteralParts(Prefix(Flat) + Pad(0, w), "/00000000");
  }

  lemma HotDenotes(w: nat)
    ensures Denotes(ExprOf(SingleHot, w), ElemsOf(SingleHot, w))
  {
    var e := ExprOf(SingleHot, w);
    HotIsLiteral(w);
    DenotesEmpty();
    hide Denotes, Pad, AllLiteral, Prefix;
    DenotesRun(e, "", []);
    assert e + "" == e && [Fixed(e)] + [] == [Fixed(e)];
  }

  /** Every corpus expression parses, to the elements one reads off it. */
  lemma ExprParses(corpus: Corpus, w: nat)
    requires w <= MAX_COUNTED_REPEAT
    ensures Bytes(ExprOf(corpus, w)) && ParseElems(ExprOf(corpus, w)) == Some(ElemsOf(corpus, w))
  {
    hide Denotes, ParseElems, Bytes, TailElems, Braced, FilePattern, FileElems, TailText;
    match corpus {
      case SingleHot => HotDenotes(w);
      case UniformRandom =>
        FlatTailDenotes();
        FileDenotes(Flat, w);
      case AdversarialWorstCase =>
        SharedTailDenotes();
        FileDenotes(SharedPrefix, w);
    }
    DenotesParses(ExprOf(corpus, w), ElemsOf(corpus, w));
  }

  // ----- the words of an expression

  lemma Take(e: Elem, es: seq<Elem>, w: string) returns (head: string, tail: string)
    requires Matches([e] + es, w)
    ensures w == head + tail && ElemMatches(e, head) && Matches(es, tail)
  {
    assert ([e] + es)[1..] == es;
    var k :| 0 <= k <= |w| && ElemMatches(e, w[..k]) && Matches(es, w[k..]);
    head, tail := w[..k], w[k..];
  }

  lemma Put(e: Elem, es: seq<Elem>, head: string, tail: string)
    requires ElemMatches(e, head) && Matches(es, tail)
    ensures Matches([e] + es, head + tail)
  {
    assert ([e] + es)[1..] == es;
    assert (head + tail)[..|head|] == head && (head + tail)[|head|..] == tail;
    hide ElemMatches;
  }

  lemma OneCopy(bytes: string, w: string)
    ensures ElemMatches(Fixed(bytes), w) <==> w == bytes
  {
    assert Repeated(bytes, 1) == bytes + Repeated(bytes, 0) == bytes;
  }

  lemma InSpan(lo: char, hi: char, c: char)
    requires lo <= hi && IsByte(hi)
    ensures c in Span(lo, hi) <==> lo <= c <= hi
  {
    if lo <= c <= hi { assert Span(lo, hi)[c as int - lo as int] == c; }
  }

  /** Words of the digit class are digit strings. */
  lemma DigitWords(n: nat, m: nat, d: string)
    ensures ElemMatches(Class(DIGITS, n, m), d) <==> AllDigits(d) && n <= |d| <= m
  {
    forall i | 0 <= i < |d| ensures d[i] in DIGITS <==> IsDigit(d[i]) { InSpan('0', '9', d[i]); }
    hide Span;
  }

  lemma DigitsAreASegment(d: string)
    requires AllDigits(d) && d != []
    ensures IsSegment(d)
  {
  }

  lemma HexIsASegment(x: string)
    requires ElemMatches(Class(HEX, 8, 8), x)
    ensures IsSegment(x)
  {
    InSpan('0', '9', '/');
    InSpan('a', 'f', '/');
    hide Span;
    assert '/' !in HEX;
  }

  lemma EmptyWord(w: string)
    ensures Matches([], w) <==> w == ""
  {
  }

  lemma FlatTailWord(t: string)
    requires Matches(TailElems(Flat), t)
    ensures TailMatches(Flat, t)
  {
    hide Matches, ElemMatches, Span;
    var slash, t1 := Take(Fixed("/"), [Class(HEX, 8, 8)] + [], t);
    OneCopy("/", slash);
    var id, t2 := Take(Class(HEX, 8, 8), [], t1);
    EmptyWord(t2);
    HexIsASegment(id);
    assert t1 == id;
  }

  lemma SharedTailWord(t: string)
    requires Matches(TailElems(SharedPrefix), t)
    ensures TailMatches(SharedPrefix, t)
  {
    hide Matches, Span;
    var es := [Alt(VERBS)] + [];
    var issues, t1 := Take(Fixed("/issues/"), [Class(DIGITS, 1, 6)] + ([Fixed("/")] + es), t);
    OneCopy("/issues/", issues);
    var num, t2 := Take(Class(DIGITS, 1, 6), [Fixed("/")] + es, t1);
    DigitWords(1, 6, num);
    DigitsAreASegment(num);
    var slash, t3 := Take(Fixed("/"), es, t2);
    OneCopy("/", slash);
    var verb, t4 := Take(Alt(VERBS), [], t3);
    EmptyWord(t4);
    assert verb in VERBS;
    assert t == "/issues/" + num + "/" + verb;
  }

  lemma TailReach(shape: Shape) returns (t: string)
    ensures Matches(TailElems(shape), t)
  {
    EmptyWord("");
    match shape {
      case Flat =>
        t := FlatTailReach();
      case SharedPrefix =>
        t := SharedTailReach();
      case LastSegment =>
        t := "";
    }
  }

  lemma FlatTailReach() returns (t: string)
    ensures Matches(TailElems(Flat), t)
  {
    EmptyWord("");
    InSpan('0', '9', '0');
    hide Matches, Span;
    var id: string := seq(8, _ => '0');
    assert ElemMatches(Class(HEX, 8, 8), id);
    OneCopy("/", "/");
    hide ElemMatches;
    Put(Class(HEX, 8, 8), [], id, "");
    Put(Fixed("/"), [Class(HEX, 8, 8)] + [], "/", id + "");
    t := "/" + (id + "");
  }

  lemma SharedTailReach() returns (t: string)
    ensures Matches(TailElems(SharedPrefix), t)
  {
    var es := [Alt(VERBS)] + [];
    EmptyWord("");
    DigitWords(1, 6, "0");
    OneCopy("/issues/", "/issues/");
    OneCopy("/", "/");
    assert VERBS[2] == "files";
    assert ElemMatches(Alt(VERBS), "files");
    hide Matches, Span, ElemMatches;
    Put(Alt(VERBS), [], "files", "");
    Put(Fixed("/"), es, "/", "files" + "");
    Put(Class(DIGITS, 1, 6), [Fixed("/")] + es, "0", "/" + ("files" + ""));
    t := "/issues/" + ("0" + ("/" + ("files" + "")));
    Put(Fixed("/issues/"), [Class(DIGITS, 1, 6)] + ([Fixed("/")] + es), "/issues/", "0" + ("/" + ("files" + "")));
  }

  /** The words of a file-backed expression: prefix, w digits, tail. */
  lemma FileWord(shape: Shape, w: nat, word: string) returns (d: string, t: string)
    requires Matches(FileElems(shape, w), word)
    ensures word == Prefix(shape) + d + t && AllDigits(d) && |d| == w && Matches(TailElems(shape), t)
  {
    hide Matches, ElemMatches, Prefix, TailElems, Span;
    var prefix, t1 := Take(Fixed(Prefix(shape)), [Class(DIGITS, w, w)] + TailElems(shape), word);
    OneCopy(Prefix(shape), prefix);
    d, t := Take(Class(DIGITS, w, w), TailElems(shape), t1);
    DigitWords(w, w, d);
    assert Prefix(shape) + (d + t) == Prefix(shape) + d + t;
  }

  lemma FileWordReach(shape: Shape, w: nat, d: string, t: string)
    requires AllDigits(d) && |d| == w && Matches(TailElems(shape), t)
    ensures Matches(FileElems(shape, w), Prefix(shape) + d + t)
  {
    DigitWords(w, w, d);
    OneCopy(Prefix(shape), Prefix(shape));
    hide Matches, ElemMatches, Prefix, TailElems, Span;
    Put(Class(DIGITS, w, w), TailElems(shape), d, t);
    Put(Fixed(Prefix(shape)), [Class(DIGITS, w, w)] + TailElems(shape), Prefix(shape), d + t);
    assert Prefix(shape) + (d + t) == Prefix(shape) + d + t;
  }

  lemma TailWord(shape: Shape, t: string)
    requires Matches(TailElems(shape), t)
    ensures TailMatches(shape, t)
  {
    match shape {
      case Flat => FlatTailWord(t);
      case SharedPrefix => SharedTailWord(t);
      case LastSegment => EmptyWord(t);
    }
  }

  lemma RouteOfWord(shape: Shape, w: nat, clusters: nat, table: seq<RouteSpec>, i: nat, tail: string)
    requires w >= 1 && i < Pow10(w) && clusters > 0 && IsTable(shape, Pow10(w), clusters, table)
    requires TailMatches(shape, tail)
    ensures PathMatches(table[i].pattern, Prefix(shape) + Pad(i, w) + tail)
  {
    hide Pow10, Pad, TailMatches, PathMatches, DigitWidth, Prefix;
    WidthsAgree(w);
    MatchFrom(shape, i, w, tail);
    hide Pattern;
  }

  /** Every word of a file-backed corpus matches exactly one pattern of the table of 10^w routes. */
  lemma FileWordNamesOne(shape: Shape, w: nat, clusters: nat, table: seq<RouteSpec>, word: string)
    requires w >= 1 && Matches(FileElems(shape, w), word)
    requires clusters > 0 && IsTable(shape, Pow10(w), clusters, table)
    ensures MatchesExactlyOne(table, word)
  {
    hide FileElems, TailElems, Matches, MatchesExactlyOne, PathMatches, Pow10, Pad, TailMatches, Val, IsTable, Prefix;
    var d, t := FileWord(shape, w, word);
    PadBijection(d, w);
    TailWord(shape, t);
    TableLength(shape, Pow10(w), clusters, table);
    RouteOfWord(shape, w, clusters, table, Val(d), t);
    ExactlyOne(shape, Pow10(w), clusters, table, Val(d), word);
  }

  lemma TableLength(shape: Shape, n: nat, clusters: nat, table: seq<RouteSpec>)
    requires clusters > 0 && IsTable(shape, n, clusters, table)
    ensures |table| == n
  {
  }

  /** Every pattern of the table of 10^w routes is matched by some word. */
  lemma EveryRouteIsNamed(shape: Shape, w: nat, clusters: nat, table: seq<RouteSpec>, i: nat)
    requires w >= 1 && clusters > 0 && IsTable(shape, Pow10(w), clusters, table) && i < |table|
    ensures exists word :: Matches(FileElems(shape, w), word) && PathMatches(table[i].pattern, word)
  {
    hide FileElems, TailElems, Matches, PathMatches, Pow10, Pad, TailMatches, Val, IsTable, Prefix;
    TableLength(shape, Pow10(w), clusters, table);
    PadLength(i, w);
    ValPad(i, w);
    var t := TailReach(shape);
    TailWord(shape, t);
    RouteOfWord(shape, w, clusters, table, i, t);
    FileWordReach(shape, w, Pad(i, w), t);
  }

  lemma HotPad(w: nat)
    ensures Pad(0, w) == Pad(0, DigitWidth(Pow10(w) - 1))
  {
    hide Pad;
    WidthsAgree(w);
    if w == 0 {
      WidthOfOneRoute();
      PadOfZero();
    }
  }

  lemma PadOfZero()
    ensures Pad(0, 0) == Pad(0, 1)
  {
  }

  lemma HotWord(w: nat, word: string)
    requires Matches(ElemsOf(SingleHot, w), word)
    ensures word == ExprOf(SingleHot, w)
  {
    hide Matches, ElemMatches;
    var e := ExprOf(SingleHot, w);
    assert [Fixed(e)] + [] == [Fixed(e)];
    hide ExprOf;
    var head, tail := Take(Fixed(e), [], word);
    OneCopy(e, head);
    EmptyWord(tail);
  }

  /** The fixed corpus matches the pattern of route 0, in the table of every power of ten. */
  lemma HotWordNamesZero(w: nat, clusters: nat, table: seq<RouteSpec>, word: string)
    requires Matches(ElemsOf(SingleHot, w), word)
    requires clusters > 0 && IsTable(Flat, Pow10(w), clusters, table)
    ensures word == ExprOf(SingleHot, w) && |table| > 0 && PathMatches(table[0].pattern, word)
  {
    hide Matches, Pad, DigitWidth, Pow10, PathMatches;
    HotWord(w, word);
    HotPad(w);
    assert IsSegment("00000000");
    assert TailMatches(Flat, "/" + "00000000");
    assert "/" + "00000000" == "/00000000";
    hide Pattern, TailMatches, Prefix;
    MatchFrom(Flat, 0, DigitWidth(Pow10(w) - 1), "/00000000");
  }

  /** The pairing of a corpus with its table: every word matches exactly one pattern. */
  lemma WordNamesOne(corpus: Corpus, w: nat, clusters: nat, table: seq<RouteSpec>, word: string)
    requires w >= 1 || corpus.SingleHot?
    requires Matches(ElemsOf(corpus, w), word)
    requires clusters > 0 && IsTable(ShapeOf(corpus), Pow10(w), clusters, table)
    ensures MatchesExactlyOne(table, word)
  {
    hide Matches, MatchesExactlyOne, PathMatches, FileElems, ExprOf, Pow10, IsTable;
    if corpus.SingleHot? {
      HotWordNamesZero(w, clusters, table, word);
      TableLength(Flat, Pow10(w), clusters, table);
      ExactlyOne(Flat, Pow10(w), clusters, table, 0, word);
    } else {
      FileWordNamesOne(ShapeOf(corpus), w, clusters, table, word);
    }
  }

  lemma TailStart(shape: Shape, t: string)
    requires TailMatches(shape, t)
    ensures t == "" || t[0] == '/'
  {
  }

  /** Why one route is refused: at width zero no word of a file-backed corpus matches the only pattern. */
  lemma ZeroWidthNamesNone(shape: Shape, clusters: nat, table: seq<RouteSpec>, word: string)
    requires Matches(FileElems(shape, 0), word)
    requires clusters > 0 && IsTable(shape, 1, clusters, table)
    ensures !PathMatches(table[0].pattern, word)
  {
    hide FileElems, TailElems, Matches, TailMatches, Pad, PathMatches, Prefix;
    var d, t := FileWord(shape, 0, word);
    TailWord(shape, t);
    TailStart(shape, t);
    assert word == Prefix(shape) + t;
    PadOfZeroIsZero();
    PatternMeans(shape, 0, DigitWidth(0), word);
    forall tail | TailMatches(shape, tail) ensures word != Prefix(shape) + Pad(0, DigitWidth(0)) + tail {
      assert t != [] ==> word[|Prefix(shape)|] == t[0];
      assert (Prefix(shape) + "0" + tail)[|Prefix(shape)|] == '0';
    }
  }

  lemma PadOfZeroIsZero()
    ensures Pad(0, DigitWidth(0)) == "0"
  {
  }
}
