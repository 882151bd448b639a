/** Reading a committed corpus file: its one pattern line, and the width put in place of its marker.
    The text of the file is an input. */
module CorpusFile {
  import opened Decimal
  import opened Wrappers
  import opened CorpusGrammar
  import opened RouteTable
  import CorpusParser
  import CorpusSyntax

  const MAX_CORPUS_FILE_BYTES: int := 4096

  // ----- text

  /** Bytes of a character in UTF-8. */
  function Utf8Width(c: char): (k: nat)
    ensures k >= 1
  {
    if c < '\U{80}' then 1 else if c < '\U{800}' then 2 else if c < '\U{10000}' then 3 else 4
  }

  function Utf8Len(s: string): nat {
    if s == [] then 0 else Utf8Width(s[0]) + Utf8Len(s[1..])
  }

  /** White space as Unicode has it. */
  predicate IsWhite(c: char) {
    || '\U{9}' <= c <= '\U{D}' || c == ' ' || c == '\U{85}' || c == '\U{A0}' || c == '\U{1680}'
    || '\U{2000}' <= c <= '\U{200A}' || c == '\U{2028}' || c == '\U{2029}' || c == '\U{202F}'
    || c == '\U{205F}' || c == '\U{3000}'
  }

  /** Its code points, in decimal. */
  lemma WhiteIs(c: char)
    ensures IsWhite(c) <==>
      (c as int) in {9, 10, 11, 12, 13, 32, 133, 160, 5760, 8192, 8193, 8194, 8195, 8196, 8197, 8198, 8199, 8200,
                     8201, 8202, 8232, 8233, 8239, 8287, 12288}
  {
  }

  function TrimStart(s: string): string {
    if s != [] && IsWhite(s[0]) then TrimStart(s[1..]) else s
  }

  function TrimEnd(s: string): string {
    if s != [] && IsWhite(s[|s| - 1]) then TrimEnd(s[..|s| - 1]) else s
  }

  function Trim(s: string): string { TrimEnd(TrimStart(s)) }

  predicate AllWhite(s: string) { forall i :: 0 <= i < |s| ==> IsWhite(s[i]) }

  lemma {:induction false} TrimEndOf(s: string, white: string)
    requires AllWhite(white) && (s == [] || !IsWhite(s[|s| - 1]))
    ensures TrimEnd(s + white) == s
  {
    if white == [] {
      assert s + white == s;
    } else {
      assert (s + white)[..|s + white| - 1] == s + white[..|white| - 1];
      TrimEndOf(s, white[..|white| - 1]);
    }
  }

  lemma {:induction false} TrimStartOf(white: string, s: string)
    requires AllWhite(white) && (s == [] || !IsWhite(s[0]))
    ensures TrimStart(white + s) == s
  {
    if white == [] {
      assert white + s == s;
    } else {
      assert (white + s)[1..] == white[1..] + s;
      TrimStartOf(white[1..], s);
    }
  }

  /** White space around a solid text is all that trimming removes. */
  lemma TrimOf(before: string, s: string, after: string)
    requires AllWhite(before) && AllWhite(after)
    requires s != [] && !IsWhite(s[0]) && !IsWhite(s[|s| - 1])
    ensures Trim(before + s + after) == s
  {
    assert before + s + after == before + (s + after);
    TrimStartOf(before, s + after);
    TrimEndOf(s, after);
  }

  // ----- the pattern line

  /** Neither blank nor a comment. */
  predicate IsPattern(trimmed: string) { trimmed != [] && trimmed[0] != '#' }

  function PatternIn(line: string): seq<string> { if IsPattern(Trim(line)) then [Trim(line)] else [] }

  function PatternsOf(lines: seq<string>): seq<string> {
    if lines == [] then [] else PatternIn(lines[0]) + PatternsOf(lines[1..])
  }

  function PatternLines(content: string): seq<string> { PatternsOf(Split(content, '\n')) }

  lemma {:induction false} SplitConcat(a: string, b: char, rest: string)
    ensures Split(a + ([b] + rest), b) == Split(a, b) + Split(rest, b)
    decreases |a|
  {
    var cut := Cut(a, b);
    if cut.None? {
      CorpusSyntax.CutNone(a, b);
      CorpusSyntax.CutAt(a, b, rest);
    } else {
      var (head, tail) := cut.value;
      assert a + ([b] + rest) == head + ([b] + (tail + ([b] + rest)));
      CorpusSyntax.CutAt(head, b, tail + ([b] + rest));
      SplitConcat(tail, b, rest);
      assert [head] + (Split(tail, b) + Split(rest, b)) == ([head] + Split(tail, b)) + Split(rest, b);
    }
  }

  lemma {:induction false} PatternsConcat(a: seq<string>, b: seq<string>)
    ensures PatternsOf(a + b) == PatternsOf(a) + PatternsOf(b)
  {
    hide PatternIn;
    if a == [] {
      assert a + b == b;
    } else {
      assert (a + b)[1..] == a[1..] + b;
      PatternsConcat(a[1..], b);
    }
  }

  /** A file's pattern lines are those before any line break and those after it. */
  lemma PatternLinesConcat(a: string, rest: string)
    ensures PatternLines(a + (['\n'] + rest)) == PatternLines(a) + PatternLines(rest)
  {
    SplitConcat(a, '\n', rest);
    PatternsConcat(Split(a, '\n'), Split(rest, '\n'));
    hide Split, PatternsOf;
  }

  lemma OneLine(line: string)
    requires '\n' !in line
    ensures PatternLines(line) == PatternIn(line)
  {
    CorpusSyntax.CutNone(line, '\n');
    var lines := Split(line, '\n');
    assert lines == [line] && lines[1..] == [];
    hide PatternIn, Split;
    assert PatternsOf(lines) == PatternIn(line) + PatternsOf(lines[1..]);
  }

  // ----- a file of comments and one pattern

  lemma {:induction false} TrimEndKeeps(s: string)
    requires s != [] && !IsWhite(s[0])
    ensures TrimEnd(s) != [] && TrimEnd(s)[0] == s[0]
  {
    if IsWhite(s[|s| - 1]) { TrimEndKeeps(s[..|s| - 1]); }
  }

  /** A blank line, or a comment after white space. */
  predicate IsSkipped(line: string) {
    && '\n' !in line
    && exists k :: 0 <= k <= |line| && AllWhite(line[..k]) && (k == |line| || line[k] == '#')
  }

  lemma SkippedHasNoPattern(line: string)
    requires IsSkipped(line)
    ensures PatternIn(line) == []
  {
    var k :| 0 <= k <= |line| && AllWhite(line[..k]) && (k == |line| || line[k] == '#');
    assert line == line[..k] + line[k..];
    TrimStartOf(line[..k], line[k..]);
    if k < |line| { TrimEndKeeps(line[k..]); }
  }

  lemma {:induction false} TrimStartWhite(s: string) returns (k: nat)
    ensures k <= |s| && AllWhite(s[..k]) && TrimStart(s) == s[k..] && (k < |s| ==> !IsWhite(s[k]))
  {
    k := 0;
    if s != [] && IsWhite(s[0]) {
      k := TrimStartWhite(s[1..]);
      assert s[..k + 1] == [s[0]] + s[1..][..k] && s[k + 1..] == s[1..][k..];
      k := k + 1;
    }
  }

  /** And no other line is without one. */
  lemma NoPatternIsSkipped(line: string)
    requires '\n' !in line && PatternIn(line) == []
    ensures IsSkipped(line)
  {
    var k := TrimStartWhite(line);
    if k < |line| { TrimEndKeeps(line[k..]); }
  }

  /** Lines that are skipped, then one pattern with white space around it. */
  function FileText(skipped: seq<string>, before: string, pattern: string, after: string): string {
    if skipped == [] then before + pattern + after + ['\n']
    else skipped[0] + (['\n'] + FileText(skipped[1..], before, pattern, after))
  }

  lemma LineAlone(line: string)
    requires '\n' !in line
    ensures Split(line, '\n') == [line]
  {
    CorpusSyntax.CutNone(line, '\n');
  }

  /** Such a text is these lines, each ended by a line break. */
  lemma {:induction false} FileLines(skipped: seq<string>, before: string, pattern: string, after: string)
    requires forall i :: 0 <= i < |skipped| ==> '\n' !in skipped[i]
    requires '\n' !in before && '\n' !in pattern && '\n' !in after
    ensures Split(FileText(skipped, before, pattern, after), '\n') == skipped + [before + pattern + after] + [""]
    decreases |skipped|
  {
    hide Split;
    var line := if skipped == [] then before + pattern + after else skipped[0];
    LineAlone(line);
    if skipped == [] {
      LineAlone("");
      SplitConcat(line, '\n', "");
      assert line + (['\n'] + "") == line + ['\n'];
      assert skipped + [line] + [""] == [line] + [""];
    } else {
      FileLines(skipped[1..], before, pattern, after);
      SplitConcat(line, '\n', FileText(skipped[1..], before, pattern, after));
      assert skipped == [skipped[0]] + skipped[1..];
    }
  }

  lemma PatternLine(before: string, pattern: string, after: string)
    requires AllWhite(before) && AllWhite(after) && '\n' !in before && '\n' !in after
    requires pattern != [] && AllPrintable(pattern) && pattern[0] != '#'
    ensures PatternLines(before + pattern + after) == [pattern]
  {
    assert '\n' !in pattern;
    TrimOf(before, pattern, after);
    OneLine(before + pattern + after);
    hide PatternLines, Trim;
  }

  lemma NoLine()
    ensures PatternLines("") == []
  {
    OneLine("");
    assert Trim("") == "";
    hide PatternLines, Trim;
  }

  /** Skipped lines and one printable pattern line: the pattern is what such a file holds. */
  lemma {:induction false} FileHoldsPattern(skipped: seq<string>, before: string, pattern: string, after: string)
    requires forall i :: 0 <= i < |skipped| ==> IsSkipped(skipped[i])
    requires AllWhite(before) && AllWhite(after) && '\n' !in before && '\n' !in after
    requires pattern != [] && AllPrintable(pattern) && pattern[0] != '#'
    ensures PatternLines(FileText(skipped, before, pattern, after)) == [pattern]
    decreases |skipped|
  {
    hide PatternLines, AllPrintable, IsSkipped, AllWhite, PatternIn;
    if skipped == [] {
      var line := before + pattern + after;
      PatternLine(before, pattern, after);
      NoLine();
      PatternLinesConcat(line, "");
      assert line + (['\n'] + "") == line + ['\n'];
    } else {
      SkippedHasNoPattern(skipped[0]);
      SkippedLine(skipped[0]);
      PatternLinesConcat(skipped[0], FileText(skipped[1..], before, pattern, after));
      FileHoldsPattern(skipped[1..], before, pattern, after);
    }
  }

  lemma SkippedLine(line: string)
    requires IsSkipped(line)
    ensures PatternLines(line) == PatternIn(line)
  {
    OneLine(line);
  }

  /** The loop over the lines: the one pattern there is, or why there is not exactly one. */
  method SolePattern(content: string) returns (r: Result<string>)
    ensures |PatternLines(content)| == 0 ==> r == Err(NoPattern)
    ensures |PatternLines(content)| == 1 ==> r == Ok(PatternLines(content)[0])
    ensures |PatternLines(content)| > 1 ==> r == Err(ManyPatterns)
  {
    hide Split, Trim, PatternsOf, Cut;
    var found: Option<string> := None;
    var start, last := 0, false;
    assert content[0..] == content;
    while !last
      invariant start <= |content|
      invariant PatternLines(content) == Found(found) + if last then [] else PatternLines(content[start..])
      decreases |content| - start + (if last then 0 else 1)
    {
      var at := CorpusParser.Position(content, start, '\n');
      var end := if at.None? then |content| else at.value;
      var trimmed := Trim(content[start..end]);
      NextLine(content, start, at);
      if IsPattern(trimmed) {
        if found.Some? {
          return Err(ManyPatterns);
        }
        found := Some(trimmed);
      }
      if at.None? {
        last := true;
      } else {
        start := end + 1;
      }
    }
    assert PatternLines(content) == Found(found);
    if found.None? {
      return Err(NoPattern);
    }
    return Ok(found.value);
  }

  function Found(found: Option<string>): seq<string> { if found.None? then [] else [found.value] }

  lemma NextLine(content: string, start: nat, at: Option<nat>)
    requires start <= |content|
    requires at.None? ==> '\n' !in content[start..]
    requires at.Some? ==>
      start <= at.value < |content| && content[at.value] == '\n' && '\n' !in content[start..at.value]
    ensures at.None? ==> PatternLines(content[start..]) == PatternIn(content[start..|content|])
    ensures at.Some? ==>
      PatternLines(content[start..]) == PatternIn(content[start..at.value]) + PatternLines(content[at.value + 1..])
  {
    hide PatternLines, PatternIn;
    if at.None? {
      assert content[start..|content|] == content[start..];
      OneLine(content[start..]);
    } else {
      var line := content[start..at.value];
      assert content[start..] == line + (['\n'] + content[at.value + 1..]);
      OneLine(line);
      PatternLinesConcat(line, content[at.value + 1..]);
    }
  }

  // ----- the width marker

  function Braced(w: nat): string { "{" + Dec(w) + "}" }

  /** Replaces the first width marker; nothing if there is none. */
  function ReplaceMarker(s: string, w: nat): Option<string> {
    if |s| < 3 then None
    else if s[..3] == "{3}" then Some(Braced(w) + s[3..])
    else
      var more :- ReplaceMarker(s[1..], w);
      Some([s[0]] + more)
  }

  predicate MarkerAt(s: string, i: nat) { i + 3 <= |s| && s[i..i + 3] == "{3}" }

  lemma MarkerShifts(s: string, j: nat)
    requires s != []
    ensures MarkerAt(s, j + 1) <==> MarkerAt(s[1..], j)
  {
    if j + 4 <= |s| { assert s[1..][j..j + 3] == s[j + 1..j + 4]; }
  }

  /** The replaced marker is the first one, and everything around it stays. */
  lemma {:induction false} ReplacesFirst(s: string, w: nat) returns (i: nat)
    requires ReplaceMarker(s, w).Some?
    ensures MarkerAt(s, i) && forall j :: 0 <= j < i ==> !MarkerAt(s, j)
    ensures ReplaceMarker(s, w).value == s[..i] + Braced(w) + s[i + 3..]
  {
    hide Braced;
    if s[..3] == "{3}" {
      i := 0;
    } else {
      var k := ReplacesFirst(s[1..], w);
      i := k + 1;
      MarkerShifts(s, k);
      assert !MarkerAt(s, 0);
      forall j | 0 <= j < i ensures !MarkerAt(s, j) {
        if j > 0 { MarkerShifts(s, j - 1); }
      }
      assert [s[0]] + s[1..][..k] == s[..i] && s[1..][k + 3..] == s[i + 3..];
      assert [s[0]] + (s[1..][..k] + Braced(w) + s[1..][k + 3..]) == s[..i] + Braced(w) + s[i + 3..];
    }
  }

  lemma {:induction false} NoMarkerMeans(s: string, w: nat)
    requires ReplaceMarker(s, w).None?
    ensures forall j: nat :: !MarkerAt(s, j)
  {
    if |s| >= 3 {
      NoMarkerMeans(s[1..], w);
      assert !MarkerAt(s, 0);
      forall j: nat ensures !MarkerAt(s, j) {
        if j > 0 { MarkerShifts(s, j - 1); }
      }
    }
  }

  /** There is something to replace exactly when there is a marker. */
  lemma MarkerFound(s: string, w: nat)
    ensures ReplaceMarker(s, w).Some? <==> exists i: nat :: MarkerAt(s, i)
  {
    hide ReplaceMarker, MarkerAt;
    if ReplaceMarker(s, w).Some? {
      var i := ReplacesFirst(s, w);
    } else {
      NoMarkerMeans(s, w);
    }
  }

  lemma {:induction false} ReplaceAt(pre: string, post: string, w: nat)
    requires '{' !in pre
    ensures ReplaceMarker(pre + ("{3}" + post), w) == Some(pre + (Braced(w) + post))
  {
    var s := pre + ("{3}" + post);
    if pre == [] {
      assert s[..3] == "{3}" && s[3..] == post;
      assert pre + (Braced(w) + post) == Braced(w) + post;
    } else {
      assert s[..3][0] == s[0] == pre[0] != '{';
      assert s[1..] == pre[1..] + ("{3}" + post);
      ReplaceAt(pre[1..], post, w);
      assert [pre[0]] + (pre[1..] + (Braced(w) + post)) == pre + (Braced(w) + post);
    }
  }

  // ----- reading

  /** What reading a file gives for an index width. */
  function Reading(content: string, w: nat): Result<string> {
    var patterns := PatternLines(content);
    if Utf8Len(content) > 4096 then Err(FileTooLarge)
    else if |patterns| > 1 then Err(ManyPatterns)
    else if patterns == [] then Err(NoPattern)
    else if !AllPrintable(patterns[0]) then Err(NotPrintable)
    else
      match ReplaceMarker(patterns[0], w)
      case None => Err(NoMarker)
      case Some(expr) => if |expr| > 4096 then Err(PatternTooLong) else Ok(expr)
  }

  method IsAllPrintable(s: string) returns (r: bool)
    ensures r == AllPrintable(s)
  {
    for k := 0 to |s|
      invariant AllPrintable(s[..k])
    {
      if !IsPrintable(s[k]) {
        return false;
      }
    }
    assert s[..|s|] == s;
    return true;
  }

  method ReadPattern(content: string, w: nat) returns (r: Result<string>)
    ensures r == Reading(content, w)
  {
    hide PatternLines, ReplaceMarker, AllPrintable, Utf8Len;
    if Utf8Len(content) > MAX_CORPUS_FILE_BYTES {
      return Err(FileTooLarge);
    }
    var pattern := SolePattern(content);
    if pattern.Err? {
      return Err(pattern.error);
    }
    var printable := IsAllPrintable(pattern.value);
    if !printable {
      return Err(NotPrintable);
    }
    var expr := ReplaceMarker(pattern.value, w);
    if expr.None? {
      return Err(NoMarker);
    }
    if |expr.value| > MAX_CORPUS_FILE_BYTES {
      return Err(PatternTooLong);
    }
    return Ok(expr.value);
  }

  /** Whatever is read is printable, so every later byte of it is one character. */
  lemma ReadIsPrintable(content: string, w: nat)
    requires Reading(content, w).Ok?
    ensures AllPrintable(Reading(content, w).value)
  {
    var p := PatternLines(content)[0];
    var i := ReplacesFirst(p, w);
    DecIsDigits(w);
    hide Dec, ReplaceMarker;
    forall k | 0 <= k < |Dec(w)| ensures IsPrintable(Dec(w)[k]) { assert IsDigit(Dec(w)[k]); }
    assert AllPrintable(p[..i]) && AllPrintable(Braced(w)) && AllPrintable(p[i + 3..]);
  }

  // ----- widths in UTF-8

  function PowersOf32(k: nat): nat { if k == 0 then 1 else 32 * PowersOf32(k - 1) }

  /** Code points below this fit in w bytes: seven bits in one byte, 5w + 1 bits in w of them. */
  function Utf8Capacity(w: nat): nat {
    match w
    case 0 => 0
    case 1 => 128
    case _ => 64 * PowersOf32(w - 1)
  }

  lemma {:induction false} CapacityGrows(v: nat, w: nat)
    requires v <= w
    ensures Utf8Capacity(v) <= Utf8Capacity(w)
  {
    if v < w {
      CapacityGrows(v, w - 1);
      if w > 2 { assert PowersOf32(w - 1) == 32 * PowersOf32(w - 2); }
    }
  }

  /** The width of a character is the least number of bytes its code point fits in. */
  lemma Utf8WidthIsLeast(c: char, w: nat)
    ensures c as int < Utf8Capacity(w) <==> Utf8Width(c) <= w
  {
    var k := Utf8Width(c);
    assert PowersOf32(1) == 32 * PowersOf32(0) && PowersOf32(2) == 32 * PowersOf32(1);
    assert PowersOf32(3) == 32 * PowersOf32(2);
    assert Utf8Capacity(k - 1) <= c as int < Utf8Capacity(k);
    if k <= w { CapacityGrows(k, w); } else { CapacityGrows(w, k - 1); }
  }

  /** The bytes of a text are those of its parts, and as many as its characters if it is printable. */
  lemma {:induction false} Utf8LenConcat(a: string, b: string)
    ensures Utf8Len(a + b) == Utf8Len(a) + Utf8Len(b)
    ensures AllPrintable(a) ==> Utf8Len(a) == |a|
  {
    if a == [] {
      assert a + b == b;
    } else {
      assert (a + b)[0] == a[0] && (a + b)[1..] == a[1..] + b;
      Utf8LenConcat(a[1..], b);
    }
  }
}
