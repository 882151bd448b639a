/** The corpus-expression parser as the source runs it: one cursor over the bytes, with a search for
    each closing byte, proved to compute the functions of the grammar. */
module CorpusParser {
  import opened CorpusGrammar
  import opened Wrappers
  import CorpusSyntax

  /** The first position of a byte at or after `from`. */
  method Position(s: string, from: nat, b: char) returns (r: Option<nat>)
    requires from <= |s|
    ensures r.None? ==> b !in s[from..]
    ensures r.Some? ==> from <= r.value < |s| && s[r.value] == b && b !in s[from..r.value]
  {
    var i := from;
    while i < |s|
      invariant from <= i <= |s|
      invariant b !in s[from..i]
    {
      if s[i] == b {
        return Some(i);
      }
      assert s[from..i + 1] == s[from..i] + [s[i]];
      i := i + 1;
    }
    assert s[from..] == s[from..i];
    return None;
  }

  lemma CutFound(s: string, from: nat, b: char, at: nat)
    requires from <= at < |s| && s[at] == b && b !in s[from..at]
    ensures Cut(s[from..], b) == Some((s[from..at], s[at + 1..]))
  {
    CorpusSyntax.CutAt(s[from..at], b, s[at + 1..]);
    assert s[from..] == s[from..at] + ([b] + s[at + 1..]);
  }

  lemma RepeatAbsent(bytes: string, next: nat)
    requires next <= |bytes| && (next < |bytes| ==> bytes[next] != '{')
    ensures ParseRepeat(bytes[next..]) == Some((1, 1, bytes[next..]))
  {
  }

  lemma RepeatOpened(bytes: string, next: nat, close: Option<nat>)
    requires next < |bytes| && bytes[next] == '{'
    requires close.None? ==> '}' !in bytes[next + 1..]
    requires close.Some? ==>
               next < close.value < |bytes| && bytes[close.value] == '}' && '}' !in bytes[next + 1..close.value]
    ensures close.None? ==> ParseRepeat(bytes[next..]) == None
    ensures close.Some? ==>
              var counts := ParseCount(bytes[next + 1..close.value]);
              ParseRepeat(bytes[next..]) ==
              if counts.None? then None else Some((counts.value.0, counts.value.1, bytes[close.value + 1..]))
  {
    hide Cut, ParseCount;
    assert bytes[next..][1..] == bytes[next + 1..];
    if close.None? {
      CorpusSyntax.CutNone(bytes[next + 1..], '}');
    } else {
      CutFound(bytes, next + 1, '}', close.value);
    }
  }

  /** A repetition suffix at the cursor. */
  method RepeatAt(bytes: string, next: nat) returns (r: Option<(nat, nat, nat)>)
    requires next <= |bytes|
    ensures r.None? <==> ParseRepeat(bytes[next..]).None?
    ensures r.Some? ==> next <= r.value.2 <= |bytes|
    ensures r.Some? ==> ParseRepeat(bytes[next..]) == Some((r.value.0, r.value.1, bytes[r.value.2..]))
  {
    hide ParseRepeat, ParseCount;
    if next == |bytes| || bytes[next] != '{' {
      RepeatAbsent(bytes, next);
      return Some((1, 1, next));
    }
    var close := Position(bytes, next + 1, '}');
    RepeatOpened(bytes, next, close);
    if close.None? {
      return None;
    }
    var counts := ParseCount(bytes[next + 1..close.value]);
    if counts.None? {
      return None;
    }
    return Some((counts.value.0, counts.value.1, close.value + 1));
  }

  /** The result of the members still to come, after those already collected. */
  function After<T>(done: seq<T>, more: Option<seq<T>>): (r: Option<seq<T>>)
    ensures done == [] ==> r == more
    ensures more == Some([]) ==> r == Some(done)
  {
    if more.None? then None
    else
      assert done == [] ==> done + more.value == more.value;
      assert done + [] == done;
      Some(done + more.value)
  }

  method SpanLoop(lo: char, hi: char, alphabet: string) returns (out: string)
    requires lo <= hi && IsByte(hi)
    ensures out == alphabet + Span(lo, hi)
  {
    var c := lo;
    out := alphabet + [c];
    while c != hi
      invariant lo <= c <= hi && out == alphabet + Span(lo, c)
      decreases hi as int - c as int
    {
      c := (c as int + 1) as char;
      out := out + [c];
    }
  }

  lemma ClassTail(body: string, i: nat, step: nat)
    requires Bytes(body) && i + step <= |body|
    ensures Bytes(body[i..]) && Bytes(body[i + step..]) && body[i..][step..] == body[i + step..]
  {
  }

  /** The members of a class, collected into one alphabet. */
  method ClassBody(body: string) returns (r: Option<string>)
    requires Bytes(body)
    ensures r == ParseClassBody(body)
  {
    if body == [] || body[0] == '^' {
      return None;
    }
    var alphabet: string, i := "", 0;
    assert body[0..] == body;
    while i < |body|
      invariant i <= |body| && Bytes(body[i..])
      invariant ClassMembers(body) == After(alphabet, ClassMembers(body[i..]))
    {
      var b := body[i];
      if b == '[' || !IsPrintable(b) {
        return None;
      }
      if i + 2 < |body| && body[i + 1] == '-' {
        var hi := body[i + 2];
        if hi < b {
          return None;
        }
        ClassTail(body, i, 3);
        var grown := SpanLoop(b, hi, alphabet);
        Gather(alphabet, Span(b, hi), ClassMembers(body[i + 3..]));
        alphabet, i := grown, i + 3;
      } else {
        ClassTail(body, i, 1);
        Gather(alphabet, [b], ClassMembers(body[i + 1..]));
        alphabet, i := alphabet + [b], i + 1;
      }
    }
    return Some(alphabet);
  }

  lemma Gather<T>(done: seq<T>, next: seq<T>, more: Option<seq<T>>)
    ensures After(done, After(next, more)) == After(done + next, more)
  {
    if more.Some? { assert done + (next + more.value) == (done + next) + more.value; }
  }

  method IsLiteralRun(chunk: string) returns (r: bool)
    ensures r == AllLiteral(chunk)
  {
    for k := 0 to |chunk|
      invariant AllLiteral(chunk[..k])
    {
      if !IsLiteral(chunk[k]) {
        return false;
      }
    }
    assert chunk[..|chunk|] == chunk;
    return true;
  }

  /** The chunks still to come. */
  function Remaining(body: string, start: nat, last: bool): seq<string>
    requires !last ==> start <= |body|
  {
    if last then [] else Split(body[start..], '|')
  }

  /** The chunks of an alternation body, checked one by one. */
  method AltBody(body: string) returns (r: Option<seq<string>>)
    ensures r == ParseAltBody(body)
  {
    hide Cut, Split, IsAlternative, AreAlternatives, Remaining;
    var choices: seq<string>, start, last := [], 0, false;
    AllRemain(body);
    while !last
      invariant start <= |body|
      invariant Split(body, '|') == choices + Remaining(body, start, last)
      invariant forall i :: 0 <= i < |choices| ==> IsAlternative(choices[i])
      decreases |body| - start + (if last then 0 else 1)
    {
      var bar := Position(body, start, '|');
      var end := if bar.None? then |body| else bar.value;
      var chunk := body[start..end];
      ghost var more := Remaining(body, end + 1, bar.None?);
      ChunkSplits(body, start, bar);
      NextChunk(choices, chunk, more);
      var ok := IsChoice(chunk);
      if !ok {
        BadChunk(Split(body, '|'), |choices|);
        return None;
      }
      choices := choices + [chunk];
      last := bar.None?;
      start := if last then start else end + 1;
      assert more == Remaining(body, start, last) by { NoneRemain(body, end + 1, start); }
    }
    NoneRemain(body, start, start);
    assert Split(body, '|') == choices;
    GoodChunks(choices);
    if |choices| < 2 {
      return None;
    }
    return Some(choices);
  }

  /** A chunk is neither empty nor anything but literal bytes. */
  method IsChoice(chunk: string) returns (r: bool)
    ensures r == IsAlternative(chunk)
  {
    if chunk == [] {
      return false;
    }
    r := IsLiteralRun(chunk);
  }

  lemma NextChunk(choices: seq<string>, chunk: string, more: seq<string>)
    ensures choices + ([chunk] + more) == (choices + [chunk]) + more
    ensures (choices + ([chunk] + more))[|choices|] == chunk
  {
  }

  lemma AllRemain(body: string)
    ensures Split(body, '|') == [] + Remaining(body, 0, false)
  {
    assert body[0..] == body;
    hide Split;
  }

  lemma NoneRemain(body: string, a: nat, b: nat)
    ensures Remaining(body, a, true) == Remaining(body, b, true) == []
  {
  }

  lemma BadChunk(choices: seq<string>, at: nat)
    requires at < |choices| && !IsAlternative(choices[at])
    ensures !AreAlternatives(choices)
  {
  }

  lemma GoodChunks(choices: seq<string>)
    requires forall i :: 0 <= i < |choices| ==> IsAlternative(choices[i])
    ensures AreAlternatives(choices) <==> |choices| >= 2
  {
  }

  lemma ChunkSplits(body: string, start: nat, bar: Option<nat>)
    requires start <= |body|
    requires bar.None? ==> '|' !in body[start..]
    requires bar.Some? ==> start <= bar.value < |body| && body[bar.value] == '|' && '|' !in body[start..bar.value]
    ensures var end := if bar.None? then |body| else bar.value;
      Remaining(body, start, false) == [body[start..end]] + Remaining(body, end + 1, bar.None?)
  {
    if bar.None? {
      CorpusSyntax.CutNone(body[start..], '|');
      assert body[start..] == body[start..|body|];
    } else {
      CutFound(body, start, '|', bar.value);
    }
  }

  /** The end of the literal run that starts at the cursor. */
  method RunEnd(bytes: string, start: nat) returns (end: nat)
    requires start <= |bytes|
    ensures start <= end <= |bytes| && RunOf(bytes[start..]) == (bytes[start..end], bytes[end..])
  {
    end := start;
    while end < |bytes| && IsLiteral(bytes[end])
      invariant start <= end <= |bytes| && AllLiteral(bytes[start..end])
    {
      assert bytes[start..end + 1] == bytes[start..end] + [bytes[end]];
      end := end + 1;
    }
    CorpusSyntax.RunAt(bytes[start..end], bytes[end..]);
    assert bytes[start..] == bytes[start..end] + bytes[end..];
  }

  /** One element at the cursor: a class. */
  method ClassAt(bytes: string, i: nat) returns (r: Option<(Elem, nat)>)
    requires Bytes(bytes) && i < |bytes| && bytes[i] == '['
    ensures ElemAt(bytes, i, r)
  {
    hide Cut, ParseRepeat, ClassMembers, ParseCount;
    var close := Position(bytes, i + 1, ']');
    assert bytes[i..][1..] == bytes[i + 1..];
    if close.None? {
      CorpusSyntax.CutNone(bytes[i + 1..], ']');
      return None;
    }
    CutFound(bytes, i + 1, ']', close.value);
    var alphabet := ClassBody(bytes[i + 1..close.value]);
    if alphabet.None? {
      return None;
    }
    var repeat := RepeatAt(bytes, close.value + 1);
    if repeat.None? {
      return None;
    }
    return Some((Class(alphabet.value, repeat.value.0, repeat.value.1), repeat.value.2));
  }

  /** What the parse of one element at the cursor has to return: the element and the next cursor. */
  predicate ElemAt(bytes: string, i: nat, r: Option<(Elem, nat)>)
    requires Bytes(bytes) && i < |bytes|
  {
    if r.None? then ParseElem(bytes[i..]).None?
    else i < r.value.1 <= |bytes| && ParseElem(bytes[i..]) == Some((r.value.0, bytes[r.value.1..]))
  }

  /** One element at the cursor: an alternation. */
  method AltAt(bytes: string, i: nat) returns (r: Option<(Elem, nat)>)
    requires Bytes(bytes) && i < |bytes| && bytes[i] == '('
    ensures ElemAt(bytes, i, r)
  {
    hide Cut, Split;
    var close := Position(bytes, i + 1, ')');
    assert bytes[i..][1..] == bytes[i + 1..];
    if close.None? {
      CorpusSyntax.CutNone(bytes[i + 1..], ')');
      return None;
    }
    CutFound(bytes, i + 1, ')', close.value);
    var body := bytes[i + 1..close.value];
    var group := Position(body, 0, '(');
    var class_ := Position(body, 0, '[');
    assert body[0..] == body;
    if group.Some? || class_.Some? {
      return None;
    }
    var choices := AltBody(body);
    if choices.None? {
      return None;
    }
    return Some((Alt(choices.value), close.value + 1));
  }

  /** One element at the cursor: a literal run. */
  method RunElemAt(bytes: string, i: nat) returns (r: Option<(Elem, nat)>)
    requires Bytes(bytes) && i < |bytes| && IsLiteral(bytes[i])
    ensures ElemAt(bytes, i, r)
  {
    var end := RunEnd(bytes, i);
    var repeat := RepeatAt(bytes, end);
    if repeat.None? {
      return None;
    }
    return Some((Literal(bytes[i..end], repeat.value.0, repeat.value.1), repeat.value.2));
  }

  lemma NoElem(s: string)
    requires s != [] && Bytes(s) && s[0] != '[' && s[0] != '(' && !IsLiteral(s[0])
    ensures ParseElem(s).None?
  {
  }

  /** The cursor loop over the whole expression. */
  method Elems(bytes: string) returns (r: Option<seq<Elem>>)
    requires Bytes(bytes)
    ensures r == ParseElems(bytes)
  {
    hide ParseElem;
    var elems, i := [], 0;
    assert bytes[0..] == bytes;
    while i < |bytes|
      invariant i <= |bytes| && Bytes(bytes[i..])
      invariant ParseElems(bytes) == After(elems, ParseElems(bytes[i..]))
    {
      var b, one := bytes[i], None;
      if b == '[' {
        one := ClassAt(bytes, i);
      } else if b == '(' {
        one := AltAt(bytes, i);
      } else if IsLiteral(b) {
        one := RunElemAt(bytes, i);
      } else {
        NoElem(bytes[i..]);
      }
      if one.None? {
        return None;
      }
      ElemSuffix(bytes[i..]);
      Gather(elems, [one.value.0], ParseElems(bytes[one.value.1..]));
      elems, i := elems + [one.value.0], one.value.1;
    }
    return Some(elems);
  }
}
