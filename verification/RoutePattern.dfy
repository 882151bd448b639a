/** What a route pattern matches: a placeholder in braces is one non-empty path segment, a group in
    parentheses is one of its words, and every other character is itself. */
module RoutePattern {
  import opened Wrappers
  import opened CorpusGrammar
  import CorpusSyntax

  predicate IsSegment(s: string) { s != [] && '/' !in s }

  /** An unfinished placeholder or group matches nothing. */
  ghost predicate PathMatches(pattern: string, path: string)
    decreases |pattern|
  {
    if pattern == [] then path == []
    else if pattern[0] == '{' then
      match Cut(pattern[1..], '}')
      case None => false
      case Some((_, rest)) => exists k :: 0 <= k <= |path| && IsSegment(path[..k]) && PathMatches(rest, path[k..])
    else if pattern[0] == '(' then
      match Cut(pattern[1..], ')')
      case None => false
      case Some((body, rest)) =>
        exists k :: 0 <= k <= |path| && path[..k] in Split(body, '|') && PathMatches(rest, path[k..])
    else path != [] && path[0] == pattern[0] && PathMatches(pattern[1..], path[1..])
  }

  predicate IsPlain(s: string) { '{' !in s && '(' !in s }

  /** Plain text in front of a pattern is plain text in front of the path. */
  lemma {:induction false} PlainMatches(text: string, pattern: string, path: string)
    requires IsPlain(text)
    ensures PathMatches(text + pattern, path) <==> text <= path && PathMatches(pattern, path[|text|..])
  {
    if text == [] {
      assert text + pattern == pattern && path[0..] == path;
    } else {
      assert text[0] in text;
      assert (text + pattern)[0] == text[0] && (text + pattern)[1..] == text[1..] + pattern;
      if path != [] && path[0] == text[0] {
        PlainMatches(text[1..], pattern, path[1..]);
        if |text| <= |path| { assert path[1..][|text| - 1..] == path[|text|..]; }
        assert text <= path <==> text[1..] <= path[1..] by {
          assert text == [text[0]] + text[1..] && path == [path[0]] + path[1..];
        }
      }
    }
  }

  function PlaceholderThen(name: string, rest: string): string { ['{'] + (name + (['}'] + rest)) }

  function GroupThen(body: string, rest: string): string { ['('] + (body + ([')'] + rest)) }

  lemma PlaceholderMatches(name: string, rest: string, path: string)
    requires '}' !in name
    ensures PathMatches(PlaceholderThen(name, rest), path)
       <==> exists k :: 0 <= k <= |path| && IsSegment(path[..k]) && PathMatches(rest, path[k..])
  {
    var p := PlaceholderThen(name, rest);
    assert p[1..] == name + (['}'] + rest);
    CorpusSyntax.CutAt(name, '}', rest);
    hide Cut, Split;
  }

  lemma GroupMatches(body: string, rest: string, path: string)
    requires ')' !in body
    ensures PathMatches(GroupThen(body, rest), path)
       <==> exists k :: 0 <= k <= |path| && path[..k] in Split(body, '|') && PathMatches(rest, path[k..])
  {
    var p := GroupThen(body, rest);
    assert p[1..] == body + ([')'] + rest);
    CorpusSyntax.CutAt(body, ')', rest);
    hide Cut, Split;
  }

  lemma EndMatches(path: string)
    ensures PathMatches("", path) <==> path == ""
  {
  }

  /** A last placeholder takes the rest of the path. */
  lemma LastPlaceholder(name: string, path: string)
    requires '}' !in name
    ensures PathMatches(PlaceholderThen(name, ""), path) <==> IsSegment(path)
  {
    PlaceholderMatches(name, "", path);
    hide PathMatches;
    if IsSegment(path) {
      var k := |path|;
      assert path[..k] == path && path[k..] == "";
      EndMatches(path[k..]);
    }
    if PathMatches(PlaceholderThen(name, ""), path) {
      var k :| 0 <= k <= |path| && IsSegment(path[..k]) && PathMatches("", path[k..]);
      EndMatches(path[k..]);
      assert path[..k] == path;
    }
  }

  /** A last group is one of its words. */
  lemma LastGroup(body: string, path: string)
    requires ')' !in body
    ensures PathMatches(GroupThen(body, ""), path) <==> path in Split(body, '|')
  {
    GroupMatches(body, "", path);
    hide PathMatches, Split;
    if path in Split(body, '|') {
      var k := |path|;
      assert path[..k] == path && path[k..] == "";
      EndMatches(path[k..]);
    }
    if PathMatches(GroupThen(body, ""), path) {
      var k :| 0 <= k <= |path| && path[..k] in Split(body, '|') && PathMatches("", path[k..]);
      EndMatches(path[k..]);
      assert path[..k] == path;
    }
  }

  /** Plain text, a placeholder, plain text and a last group. */
  function SegmentAndWord(a: string, name: string, b: string, body: string): string {
    a + PlaceholderThen(name, b + GroupThen(body, ""))
  }

  lemma AfterPlain(text: string, pattern: string, path: string) returns (rest: string)
    requires IsPlain(text) && PathMatches(text + pattern, path)
    ensures path == text + rest && PathMatches(pattern, rest)
  {
    PlainMatches(text, pattern, path);
    rest := path[|text|..];
  }

  lemma AfterPlaceholder(name: string, pattern: string, path: string) returns (segment: string, rest: string)
    requires '}' !in name && PathMatches(PlaceholderThen(name, pattern), path)
    ensures path == segment + rest && IsSegment(segment) && PathMatches(pattern, rest)
  {
    PlaceholderMatches(name, pattern, path);
    hide PathMatches, PlaceholderThen;
    var k :| 0 <= k <= |path| && IsSegment(path[..k]) && PathMatches(pattern, path[k..]);
    segment, rest := path[..k], path[k..];
  }

  lemma SegmentAndWordSound(a: string, name: string, b: string, body: string, path: string)
      returns (segment: string, word: string)
    requires IsPlain(a) && '}' !in name && IsPlain(b) && ')' !in body
    requires PathMatches(SegmentAndWord(a, name, b, body), path)
    ensures IsSegment(segment) && word in Split(body, '|') && path == a + segment + b + word
  {
    hide PathMatches, Split, GroupThen, PlaceholderThen, IsPlain, IsSegment;
    var group := GroupThen(body, "");
    var t := AfterPlain(a, PlaceholderThen(name, b + group), path);
    var u: string;
    segment, u := AfterPlaceholder(name, b + group, t);
    word := AfterPlain(b, group, u);
    LastGroup(body, word);
    assert a + (segment + (b + word)) == a + segment + b + word;
  }

  lemma SegmentAndWordComplete(a: string, name: string, b: string, body: string, segment: string, word: string)
    requires IsPlain(a) && '}' !in name && IsPlain(b) && ')' !in body
    requires IsSegment(segment) && word in Split(body, '|')
    ensures PathMatches(SegmentAndWord(a, name, b, body), a + segment + b + word)
  {
    hide PathMatches, Split, GroupThen, PlaceholderThen;
    var group := GroupThen(body, "");
    var t := segment + (b + word);
    var path := a + segment + b + word;
    assert path == a + t && path[|a|..] == t;
    PlainMatches(a, PlaceholderThen(name, b + group), path);
    PlaceholderMatches(name, b + group, t);
    assert t[..|segment|] == segment && t[|segment|..] == b + word && (b + word)[|b|..] == word;
    PlainMatches(b, group, b + word);
    LastGroup(body, word);
  }
}
