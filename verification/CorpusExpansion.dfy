/** Expansion of a parsed corpus expression: which words it denotes, how the sampler draws one, and
    the longest word there is. The random generator is the tape of draws it has still to give. */
module CorpusExpansion {
  import opened Arith
  import opened CorpusGrammar
  import opened Wrappers

  // ----- the words of an expression

  function Repeated(bytes: string, k: nat): string {
    if k == 0 then "" else bytes + Repeated(bytes, k - 1)
  }

  ghost predicate ElemMatches(e: Elem, w: string) {
    match e
    case Literal(bytes, min, max) => exists k :: min <= k <= max && w == Repeated(bytes, k)
    case Class(alphabet, min, max) => min <= |w| <= max && forall i :: 0 <= i < |w| ==> w[i] in alphabet
    case Alt(choices) => w in choices
  }

  /** The word splits into one piece per element. */
  ghost predicate Matches(es: seq<Elem>, w: string) {
    if es == [] then w == []
    else exists k :: 0 <= k <= |w| && ElemMatches(es[0], w[..k]) && Matches(es[1..], w[k..])
  }

  /** What the parser guarantees of an element. */
  predicate Drawable(e: Elem) {
    match e
    case Literal(_, min, max) => min <= max
    case Class(alphabet, min, max) => alphabet != [] && min <= max
    case Alt(choices) => choices != []
  }

  predicate AllDrawable(es: seq<Elem>) { forall i :: 0 <= i < |es| ==> Drawable(es[i]) }

  lemma ParsedElemIsDrawable(s: string)
    requires s != [] && Bytes(s) && ParseElem(s).Some?
    ensures Drawable(ParseElem(s).value.0)
  {
    if s[0] == '[' {
      CutBytes(s[1..], ']');
      var body := Cut(s[1..], ']').value.0;
      assert ClassMembers(body).Some? && ClassMembers(body).value != [];
      hide ClassMembers;
    }
    hide Cut, RunOf, Split;
  }

  lemma {:induction false} ParsedIsDrawable(s: string)
    requires Bytes(s) && ParseElems(s).Some?
    ensures AllDrawable(ParseElems(s).value)
    decreases |s|
  {
    if s != [] {
      ElemSuffix(s);
      ParsedElemIsDrawable(s);
      ParsedIsDrawable(ParseElem(s).value.1);
      hide ParseElem, Drawable;
    }
  }

  // ----- printable expressions have printable words

  predicate PrintableElem(e: Elem) {
    match e
    case Literal(bytes, _, _) => AllPrintable(bytes)
    case Class(alphabet, _, _) => AllPrintable(alphabet)
    case Alt(choices) => forall i :: 0 <= i < |choices| ==> AllPrintable(choices[i])
  }

  predicate AllPrintableElems(es: seq<Elem>) { forall i :: 0 <= i < |es| ==> PrintableElem(es[i]) }

  lemma PrintableParts(a: string, b: string)
    requires AllPrintable(a + b)
    ensures AllPrintable(a) && AllPrintable(b)
  {
    forall i | 0 <= i < |a| ensures IsPrintable(a[i]) { assert (a + b)[i] == a[i]; }
    forall i | 0 <= i < |b| ensures IsPrintable(b[i]) { assert (a + b)[|a| + i] == b[i]; }
  }

  lemma CutPrintable(s: string, b: char)
    requires AllPrintable(s) && Cut(s, b).Some?
    ensures AllPrintable(Cut(s, b).value.0) && AllPrintable(Cut(s, b).value.1)
  {
    var (head, tail) := Cut(s, b).value;
    PrintableParts(head + [b], tail);
    PrintableParts(head, [b]);
  }

  lemma {:induction false} MembersPrintable(body: string)
    requires Bytes(body) && AllPrintable(body) && ClassMembers(body).Some?
    ensures AllPrintable(ClassMembers(body).value)
    decreases |body|
  {
    if body != [] {
      if |body| >= 3 && body[1] == '-' {
        MembersPrintable(body[3..]);
        assert IsPrintable(body[0]) && IsPrintable(body[2]);
        assert AllPrintable(Span(body[0], body[2]));
      } else {
        MembersPrintable(body[1..]);
      }
    }
  }

  lemma RepeatPrintable(s: string)
    requires AllPrintable(s) && ParseRepeat(s).Some?
    ensures AllPrintable(ParseRepeat(s).value.2)
  {
    if s != [] && s[0] == '{' { CutPrintable(s[1..], '}'); }
    hide Cut, ParseCount;
  }

  lemma ElemPrintable(s: string)
    requires s != [] && Bytes(s) && AllPrintable(s) && ParseElem(s).Some?
    ensures PrintableElem(ParseElem(s).value.0) && AllPrintable(ParseElem(s).value.1)
  {
    if s[0] == '[' {
      ClassPrintable(s);
    } else if s[0] == '(' {
      CutPrintable(s[1..], ')');
      hide Cut, Split;
    } else {
      var (run, s1) := RunOf(s);
      PrintableParts(run, s1);
      RepeatPrintable(s1);
      hide RunOf, ParseRepeat;
    }
  }

  lemma ClassPrintable(s: string)
    requires s != [] && s[0] == '[' && Bytes(s) && AllPrintable(s) && ParseElem(s).Some?
    ensures PrintableElem(ParseElem(s).value.0) && AllPrintable(ParseElem(s).value.1)
  {
    CutBytes(s[1..], ']');
    CutPrintable(s[1..], ']');
    var (body, s1) := Cut(s[1..], ']').value;
    MembersPrintable(body);
    RepeatPrintable(s1);
    hide Cut, ClassMembers, ParseRepeat, AllPrintable, Bytes;
  }

  /** A printable expression parses to printable elements. */
  lemma {:induction false} ParsedIsPrintable(s: string)
    requires Bytes(s) && AllPrintable(s) && ParseElems(s).Some?
    ensures AllPrintableElems(ParseElems(s).value)
    decreases |s|
  {
    if s != [] {
      ElemSuffix(s);
      ElemPrintable(s);
      ParsedIsPrintable(ParseElem(s).value.1);
      hide ParseElem, PrintableElem, AllPrintable;
    }
  }

  lemma {:induction false} RepeatedPrintable(bytes: string, k: nat)
    requires AllPrintable(bytes)
    ensures AllPrintable(Repeated(bytes, k))
  {
    if k > 0 { RepeatedPrintable(bytes, k - 1); }
  }

  lemma ElemWordPrintable(e: Elem, w: string)
    requires PrintableElem(e) && ElemMatches(e, w)
    ensures AllPrintable(w)
  {
    match e {
      case Literal(bytes, min, max) =>
        var k :| min <= k <= max && w == Repeated(bytes, k);
        RepeatedPrintable(bytes, k);
      case Class(alphabet, _, _) =>
      case Alt(_) =>
    }
  }

  /** Every word of printable elements is printable. */
  lemma {:induction false} WordPrintable(es: seq<Elem>, w: string)
    requires AllPrintableElems(es) && Matches(es, w)
    ensures AllPrintable(w)
  {
    if es != [] {
      var k :| 0 <= k <= |w| && ElemMatches(es[0], w[..k]) && Matches(es[1..], w[k..]);
      ElemWordPrintable(es[0], w[..k]);
      WordPrintable(es[1..], w[k..]);
      hide ElemMatches, PrintableElem, Matches;
      assert w == w[..k] + w[k..];
    }
  }

  // ----- drawing

  /** The next draw below `n`, and the tape after it. */
  function Draw(tape: seq<nat>, n: nat): (r: (nat, seq<nat>))
    requires n > 0
    ensures r.0 < n
  {
    if tape == [] then (0, []) else (tape[0] % n, tape[1..])
  }

  function DrawRepeat(tape: seq<nat>, min: nat, max: nat): (nat, seq<nat>) {
    if min >= max then (min, tape) else
      var (d, t) := Draw(tape, max - min + 1);
      (min + d, t)
  }

  /** One byte of the alphabet for each of `k` draws. */
  function Picks(alphabet: string, k: nat, tape: seq<nat>): (string, seq<nat>)
    requires alphabet != []
  {
    if k == 0 then ("", tape) else
      var (d, t) := Draw(tape, |alphabet|);
      var (w, t1) := Picks(alphabet, k - 1, t);
      ([alphabet[d]] + w, t1)
  }

  function SampleElem(e: Elem, tape: seq<nat>): (string, seq<nat>)
    requires Drawable(e)
  {
    match e
    case Literal(bytes, min, max) =>
      var (k, t) := DrawRepeat(tape, min, max);
      (Repeated(bytes, k), t)
    case Class(alphabet, min, max) =>
      var (k, t) := DrawRepeat(tape, min, max);
      Picks(alphabet, k, t)
    case Alt(choices) =>
      var (d, t) := Draw(tape, |choices|);
      (choices[d], t)
  }

  function Sample(es: seq<Elem>, tape: seq<nat>): (string, seq<nat>)
    requires AllDrawable(es)
  {
    if es == [] then ("", tape) else
      var (w, t) := SampleElem(es[0], tape);
      var (w1, t1) := Sample(es[1..], t);
      (w + w1, t1)
  }

  // ----- every draw gives a word, and every word can be drawn

  lemma {:induction false} PicksMatch(alphabet: string, k: nat, tape: seq<nat>)
    requires alphabet != []
    ensures var w := Picks(alphabet, k, tape).0;
            |w| == k && forall i :: 0 <= i < |w| ==> w[i] in alphabet
  {
    if k > 0 { PicksMatch(alphabet, k - 1, Draw(tape, |alphabet|).1); }
  }

  lemma ElemSampleMatches(e: Elem, tape: seq<nat>)
    requires Drawable(e)
    ensures ElemMatches(e, SampleElem(e, tape).0)
  {
    if e.Class? {
      var (k, t) := DrawRepeat(tape, e.min, e.max);
      PicksMatch(e.alphabet, k, t);
    }
    hide Picks, Repeated;
  }

  lemma {:induction false} SampleMatches(es: seq<Elem>, tape: seq<nat>)
    requires AllDrawable(es)
    ensures Matches(es, Sample(es, tape).0)
  {
    if es != [] {
      var (w, t) := SampleElem(es[0], tape);
      ElemSampleMatches(es[0], tape);
      SampleMatches(es[1..], t);
      var (w1, _) := Sample(es[1..], t);
      assert (w + w1)[..|w|] == w && (w + w1)[|w|..] == w1;
      hide SampleElem, ElemMatches;
    }
  }

  lemma {:induction false} PicksReach(alphabet: string, w: string, rest: seq<nat>) returns (tape: seq<nat>)
    requires alphabet != [] && forall i :: 0 <= i < |w| ==> w[i] in alphabet
    ensures Picks(alphabet, |w|, tape) == (w, rest)
  {
    if w == [] {
      tape := rest;
    } else {
      var more := PicksReach(alphabet, w[1..], rest);
      var d: nat :| d < |alphabet| && alphabet[d] == w[0];
      tape := [d] + more;
      DivModUnique(d, |alphabet|, 0, d);
      assert tape[1..] == more;
      assert w == [w[0]] + w[1..];
    }
  }

  lemma RepeatReach(min: nat, max: nat, k: nat, rest: seq<nat>) returns (tape: seq<nat>)
    requires min <= k <= max
    ensures DrawRepeat(tape, min, max) == (k, rest)
  {
    if min >= max {
      tape := rest;
    } else {
      tape := [k - min] + rest;
      DivModUnique(k - min, max - min + 1, 0, k - min);
      assert tape[1..] == rest;
    }
  }

  lemma ElemReach(e: Elem, w: string, rest: seq<nat>) returns (tape: seq<nat>)
    requires Drawable(e) && ElemMatches(e, w)
    ensures SampleElem(e, tape) == (w, rest)
  {
    match e {
      case Literal(bytes, min, max) =>
        var k :| min <= k <= max && w == Repeated(bytes, k);
        tape := RepeatReach(min, max, k, rest);
      case Class(alphabet, min, max) =>
        var t := PicksReach(alphabet, w, rest);
        tape := RepeatReach(min, max, |w|, t);
      case Alt(choices) =>
        var d: nat :| d < |choices| && choices[d] == w;
        tape := [d] + rest;
        DivModUnique(d, |choices|, 0, d);
        assert tape[1..] == rest;
    }
    hide Picks, Repeated, DrawRepeat;
  }

  lemma FirstPiece(es: seq<Elem>, w: string) returns (k: nat)
    requires es != [] && Matches(es, w)
    ensures k <= |w| && ElemMatches(es[0], w[..k]) && Matches(es[1..], w[k..])
  {
    k :| 0 <= k <= |w| && ElemMatches(es[0], w[..k]) && Matches(es[1..], w[k..]);
  }

  lemma SampleCons(es: seq<Elem>, tape: seq<nat>, w: string, t: seq<nat>, w1: string, t1: seq<nat>)
    requires es != [] && AllDrawable(es)
    requires SampleElem(es[0], tape) == (w, t) && Sample(es[1..], t) == (w1, t1)
    ensures Sample(es, tape) == (w + w1, t1)
  {
    hide SampleElem;
  }

  lemma {:induction false} SampleReach(es: seq<Elem>, w: string, rest: seq<nat>) returns (tape: seq<nat>)
    requires AllDrawable(es) && Matches(es, w)
    ensures Sample(es, tape) == (w, rest)
  {
    hide ElemMatches, SampleElem;
    if es == [] {
      tape := rest;
    } else {
      var k := FirstPiece(es, w);
      hide Sample, Matches;
      var t := SampleReach(es[1..], w[k..], rest);
      tape := ElemReach(es[0], w[..k], t);
      SampleCons(es, tape, w[..k], t, w[k..], rest);
      assert w == w[..k] + w[k..];
    }
  }

  /** The sampler can return exactly the words of the expression. */
  lemma SampledExactly(es: seq<Elem>, w: string)
    requires AllDrawable(es)
    ensures Matches(es, w) <==> exists tape :: Sample(es, tape).0 == w
  {
    hide Matches, Sample;
    if Matches(es, w) {
      var tape := SampleReach(es, w, []);
      assert Sample(es, tape).0 == w;
    }
    forall tape | Sample(es, tape).0 == w ensures Matches(es, w) { SampleMatches(es, tape); }
  }

  // ----- the longest word

  function Longest(choices: seq<string>): (m: nat)
    ensures forall i :: 0 <= i < |choices| ==> |choices[i]| <= m
    ensures choices != [] ==> exists i :: 0 <= i < |choices| && |choices[i]| == m
  {
    if choices == [] then 0
    else
      var n := Longest(choices[1..]);
      if |choices[0]| >= n then |choices[0]| else n
  }

  function ElemMax(e: Elem): nat {
    match e
    case Literal(bytes, _, max) => |bytes| * max
    case Class(_, _, max) => max
    case Alt(choices) => Longest(choices)
  }

  function MaxLen(es: seq<Elem>): nat {
    if es == [] then 0 else ElemMax(es[0]) + MaxLen(es[1..])
  }

  lemma {:induction false} RepeatedLength(bytes: string, k: nat)
    ensures |Repeated(bytes, k)| == |bytes| * k
  {
    if k > 0 {
      RepeatedLength(bytes, k - 1);
      assert |bytes| * k == |bytes| + |bytes| * (k - 1);
    }
  }

  lemma ElemFits(e: Elem, w: string)
    requires ElemMatches(e, w)
    ensures |w| <= ElemMax(e)
  {
    if e.Literal? {
      var k :| e.min <= k <= e.max && w == Repeated(e.bytes, k);
      RepeatedLength(e.bytes, k);
      MulMono(|e.bytes|, k, e.max);
    }
    hide Repeated, Longest;
  }

  lemma {:induction false} WordFits(es: seq<Elem>, w: string)
    requires Matches(es, w)
    ensures |w| <= MaxLen(es)
  {
    if es != [] {
      var k :| 0 <= k <= |w| && ElemMatches(es[0], w[..k]) && Matches(es[1..], w[k..]);
      ElemFits(es[0], w[..k]);
      WordFits(es[1..], w[k..]);
      hide ElemMatches, ElemMax;
    }
  }

  lemma ElemLongest(e: Elem) returns (w: string)
    requires Drawable(e)
    ensures ElemMatches(e, w) && |w| == ElemMax(e)
  {
    match e {
      case Literal(bytes, min, max) =>
        w := Repeated(bytes, max);
        RepeatedLength(bytes, max);
      case Class(alphabet, min, max) =>
        w := seq(max, _ => alphabet[0]);
      case Alt(choices) =>
        var i :| 0 <= i < |choices| && |choices[i]| == Longest(choices);
        w := choices[i];
    }
  }

  lemma {:induction false} LongestWord(es: seq<Elem>) returns (w: string)
    requires AllDrawable(es)
    ensures Matches(es, w) && |w| == MaxLen(es)
  {
    if es == [] {
      w := "";
    } else {
      var head := ElemLongest(es[0]);
      var tail := LongestWord(es[1..]);
      w := head + tail;
      assert w[..|head|] == head && w[|head|..] == tail;
      hide ElemMatches, ElemMax;
    }
  }

  /** The bound is the length of the longest word: none is longer and one is as long. */
  lemma MaxLenIsSharp(es: seq<Elem>)
    requires AllDrawable(es)
    ensures forall w :: Matches(es, w) ==> |w| <= MaxLen(es)
    ensures exists w :: Matches(es, w) && |w| == MaxLen(es)
  {
    hide Matches, MaxLen;
    forall w | Matches(es, w) ensures |w| <= MaxLen(es) { WordFits(es, w); }
    var w := LongestWord(es);
  }

  lemma {:induction false} MaxLenSnoc(es: seq<Elem>, e: Elem)
    ensures MaxLen(es + [e]) == MaxLen(es) + ElemMax(e)
  {
    hide ElemMax;
    if es == [] {
      assert es + [e] == [e];
      assert [e][1..] == [];
    } else {
      assert (es + [e])[1..] == es[1..] + [e];
      MaxLenSnoc(es[1..], e);
    }
  }

  lemma {:induction false} MaxLenPrefix(es: seq<Elem>, k: nat)
    requires k <= |es|
    ensures MaxLen(es[..k]) <= MaxLen(es)
    decreases |es| - k
  {
    if k < |es| {
      assert es[..k + 1] == es[..k] + [es[k]];
      MaxLenSnoc(es[..k], es[k]);
      MaxLenPrefix(es, k + 1);
    } else {
      assert es[..k] == es;
    }
  }

  method LongestLoop(choices: seq<string>) returns (m: nat)
    ensures m == Longest(choices)
  {
    m := 0;
    for i := 0 to |choices|
      invariant forall j :: 0 <= j < i ==> |choices[j]| <= m
      invariant i == 0 ==> m == 0
      invariant i > 0 ==> exists j :: 0 <= j < i && |choices[j]| == m
    {
      m := Max(m, |choices[i]|);
    }
  }

  /** The bound in checked 64-bit arithmetic: it is refused exactly when it does not fit. */
  method MaxExpansion(es: seq<Elem>) returns (r: Option<nat>)
    ensures r == if MaxLen(es) <= U64_MAX then Some(MaxLen(es)) else None
  {
    hide MaxLen, Longest;
    var total := 0;
    assert MaxLen(es[..0]) == 0 by { MaxLenEmpty(); }
    for i := 0 to |es|
      invariant total == MaxLen(es[..i]) <= U64_MAX
    {
      var one: nat := match es[i] {
        case Literal(bytes, _, max) => |bytes| * max
        case Class(_, _, max) => max
        case Alt(_) => 0
      };
      if es[i].Alt? {
        one := LongestLoop(es[i].choices);
      }
      assert es[..i + 1] == es[..i] + [es[i]];
      MaxLenSnoc(es[..i], es[i]);
      MaxLenPrefix(es, i + 1);
      if one > U64_MAX {
        return None;
      }
      if total + one > U64_MAX {
        return None;
      }
      total := total + one;
    }
    assert es[..|es|] == es;
    return Some(total);
  }

  lemma MaxLenEmpty()
    ensures MaxLen([]) == 0
  {
  }

  // ----- the sampling loop

  method ExtendRepeated(sample: string, bytes: string, reps: nat) returns (out: string)
    ensures out == sample + Repeated(bytes, reps)
  {
    out := sample;
    assert sample + Repeated(bytes, reps) == out + Repeated(bytes, reps - 0);
    for j := 0 to reps
      invariant out + Repeated(bytes, reps - j) == sample + Repeated(bytes, reps)
    {
      assert out + (bytes + Repeated(bytes, reps - j - 1)) == (out + bytes) + Repeated(bytes, reps - j - 1);
      out := out + bytes;
    }
    assert out + "" == out;
  }

  method ExtendPicks(sample: string, alphabet: string, reps: nat, tape: seq<nat>)
    returns (out: string, t: seq<nat>)
    requires alphabet != []
    ensures out == sample + Picks(alphabet, reps, tape).0 && t == Picks(alphabet, reps, tape).1
  {
    out, t := sample, tape;
    for j := 0 to reps
      invariant out + Picks(alphabet, reps - j, t).0 == sample + Picks(alphabet, reps, tape).0
      invariant Picks(alphabet, reps - j, t).1 == Picks(alphabet, reps, tape).1
    {
      var (d, t1) := Draw(t, |alphabet|);
      ghost var more := Picks(alphabet, reps - j - 1, t1).0;
      assert out + ([alphabet[d]] + more) == (out + [alphabet[d]]) + more;
      out, t := out + [alphabet[d]], t1;
    }
    assert out + "" == out;
  }

  method ExtendElem(sample: string, e: Elem, tape: seq<nat>) returns (out: string, t: seq<nat>)
    requires Drawable(e)
    ensures out == sample + SampleElem(e, tape).0 && t == SampleElem(e, tape).1
  {
    hide Picks, Repeated;
    match e {
      case Literal(bytes, min, max) =>
        var (reps, t1) := DrawRepeat(tape, min, max);
        out := ExtendRepeated(sample, bytes, reps);
        t := t1;
      case Class(alphabet, min, max) =>
        var (reps, t1) := DrawRepeat(tape, min, max);
        out, t := ExtendPicks(sample, alphabet, reps, t1);
      case Alt(choices) =>
        var (d, t1) := Draw(tape, |choices|);
        out, t := sample + choices[d], t1;
    }
  }

  method SampleLoop(es: seq<Elem>, tape: seq<nat>) returns (sample: string, t: seq<nat>)
    requires AllDrawable(es)
    ensures (sample, t) == Sample(es, tape)
  {
    hide SampleElem, Drawable;
    sample, t := "", tape;
    assert es[0..] == es && "" + Sample(es, tape).0 == Sample(es, tape).0;
    for i := 0 to |es|
      invariant sample + Sample(es[i..], t).0 == Sample(es, tape).0
      invariant Sample(es[i..], t).1 == Sample(es, tape).1
    {
      ghost var was := sample;
      ghost var (w, t1) := SampleElem(es[i], t);
      ghost var w1 := Sample(es[i + 1..], t1).0;
      assert es[i..][1..] == es[i + 1..];
      sample, t := ExtendElem(sample, es[i], t);
      assert was + (w + w1) == (was + w) + w1;
    }
    assert sample + "" == sample;
  }
}
