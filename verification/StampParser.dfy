/** The build-stamp parser as the source runs it: a cursor over the text, advanced in loops. */
module StampParser {
  import opened StampJson
  import opened Wrappers

  /** What was read before the cursor, put in front of what is still to be read. */
  function Before(out: string, r: Option<(string, string)>): Option<(string, string)> {
    match r
    case None => None
    case Some((v, rest)) => Some((out + v, rest))
  }

  function ItemsBefore(out: seq<string>, r: Option<(seq<string>, string)>): Option<(seq<string>, string)> {
    match r
    case None => None
    case Some((vs, rest)) => Some((out + vs, rest))
  }

  class JsonParser {
    const chars: string
    var pos: nat

    predicate Valid()
      reads this
    {
      pos <= |chars|
    }

    function Rest(): string
      requires Valid()
      reads this
    {
      chars[pos..]
    }

    constructor (text: string)
      ensures Valid() && Rest() == text
    {
      chars := text;
      pos := 0;
    }

    method Skip()
      requires Valid()
      modifies this
      ensures Valid() && Rest() == SkipWs(old(Rest())) && pos >= old(pos)
    {
      while pos < |chars| && IsWs(chars[pos])
        invariant Valid() && SkipWs(Rest()) == SkipWs(old(Rest())) && pos >= old(pos)
        decreases |chars| - pos
      {
        assert Rest()[1..] == chars[pos + 1..];
        pos := pos + 1;
      }
    }

    method Peek() returns (c: Option<char>)
      requires Valid()
      ensures c == if Rest() == [] then None else Some(Rest()[0])
    {
      return if pos < |chars| then Some(chars[pos]) else None;
    }

    method Bump() returns (c: Option<char>)
      requires Valid()
      modifies this
      ensures Valid()
      ensures old(Rest()) == [] ==> c == None && Rest() == [] && pos == old(pos)
      ensures old(Rest()) != [] ==> c == Some(old(Rest())[0]) && Rest() == old(Rest())[1..] && pos == old(pos) + 1
    {
      if pos == |chars| {
        return None;
      }
      c := Some(chars[pos]);
      pos := pos + 1;
    }

    method ExpectChar(c: char) returns (ok: bool)
      requires Valid()
      modifies this
      ensures Valid() && pos >= old(pos)
      ensures ok == Expect(old(Rest()), c).Some?
      ensures ok ==> Rest() == Expect(old(Rest()), c).value && pos == old(pos) + 1
    {
      var next := Bump();
      return next == Some(c);
    }

    /** The four characters after a backslash-u. */
    method BumpHex() returns (hex: Option<string>)
      requires Valid()
      modifies this
      ensures Valid() && pos >= old(pos)
      ensures hex.Some? <==> |old(Rest())| >= 4
      ensures hex.Some? ==> hex.value == old(Rest())[..4] && Rest() == old(Rest())[4..]
    {
      var out := "";
      ghost var start := Rest();
      for k := 0 to 4
        invariant Valid() && |out| == k <= |start| && out == start[..k] && Rest() == start[k..]
        invariant pos >= old(pos)
      {
        var c := Bump();
        if c.None? {
          return None;
        }
        out := out + [c.value];
      }
      return Some(out);
    }

    /** One character of a literal after its first character c has been taken. */
    method Unescape() returns (c: Option<char>)
      requires Valid()
      modifies this
      ensures Valid() && pos >= old(pos)
      ensures var s := old(Rest());
        if s != [] && s[0] == 'u' then
          && (c.Some? <==> |s| >= 5 && HexChar(s[1..5]).Some?)
          && (c.Some? ==> c == HexChar(s[1..5]) && Rest() == s[5..])
        else
          && (c.Some? <==> s != [] && ShortEscape(s[0]).Some?)
          && (c.Some? ==> c == ShortEscape(s[0]) && Rest() == s[1..])
    {
      ghost var s := Rest();
      var escape := Bump();
      if escape.None? {
        return None;
      }
      if escape.value == 'u' {
        var hex := BumpHex();
        if hex.None? {
          return None;
        }
        assert s[1..][..4] == s[1..5] && s[1..][4..] == s[5..];
        return HexChar(hex.value);
      }
      return ShortEscape(escape.value);
    }

    method Text() returns (r: Option<string>)
      requires Valid()
      modifies this
      ensures Valid() && pos >= old(pos)
      ensures match ParseString(old(Rest()))
        case None => r == None
        case Some((v, rest)) => r == Some(v) && Rest() == rest
    {
      var open := ExpectChar('"');
      if !open {
        return None;
      }
      ghost var start := Rest();
      var out := "";
      BeforeNothing(Body(start));
      while true
        invariant Valid() && pos >= old(pos)
        invariant Before(out, Body(Rest())) == Body(start)
        decreases |chars| - pos
      {
        ghost var s, before := Rest(), out;
        var c := Bump();
        if c.None? {
          return None;
        }
        if c.value == '"' {
          assert out + "" == out;
          return Some(out);
        } else if c.value == '\\' {
          var u := Unescape();
          UnescapeIsBody(s);
          if u.None? {
            return None;
          }
          out := out + [u.value];
        } else if c.value < ' ' {
          return None;
        } else {
          out := out + [c.value];
        }
        BeforeSnoc(before, out, Body(Rest()));
      }
    }

    method TakeLiteral(literal: string) returns (ok: bool)
      requires Valid()
      modifies this
      ensures Valid()
      ensures ok == (literal <= old(Rest()))
      ensures ok ==> Rest() == old(Rest())[|literal|..] && pos == old(pos) + |literal|
      ensures !ok ==> pos == old(pos)
    {
      var probe := pos;
      for k := 0 to |literal|
        invariant pos == old(pos) && probe == pos + k <= |chars|
        invariant literal[..k] == Rest()[..k]
      {
        if probe == |chars| || chars[probe] != literal[k] {
          return false;
        }
        assert Rest()[k] == literal[k];
        probe := probe + 1;
      }
      pos := probe;
      return true;
    }

    method Boolean() returns (r: Option<bool>)
      requires Valid()
      modifies this
      ensures Valid() && pos >= old(pos)
      ensures match ParseBool(old(Rest()))
        case None => r == None
        case Some((v, rest)) => r == Some(v) && Rest() == rest
    {
      var ok := TakeLiteral("true");
      if ok {
        return Some(true);
      }
      ok := TakeLiteral("false");
      if ok {
        return Some(false);
      }
      return None;
    }

    method StringArray() returns (r: Option<seq<string>>)
      requires Valid()
      modifies this
      ensures Valid() && pos >= old(pos)
      ensures match ParseStringArray(old(Rest()))
        case None => r == None
        case Some((vs, rest)) => r == Some(vs) && Rest() == rest
    {
      hide SkipWs, ParseString;
      var ok := ExpectChar('[');
      if !ok {
        return None;
      }
      Skip();
      var out: seq<string> := [];
      var next := Peek();
      if next == Some(']') {
        next := Bump();
        return Some(out);
      }
      ghost var start := Rest();
      ItemsBeforeNothing(ParseItems(start));
      while true
        invariant Valid() && pos >= old(pos)
        invariant ItemsBefore(out, ParseItems(Rest())) == ParseItems(start)
        decreases |chars| - pos
      {
        ghost var before := out;
        Skip();
        var item := Text();
        if item.None? {
          return None;
        }
        out := out + [item.value];
        Skip();
        var c := Bump();
        if c == Some(',') {
          ItemsBeforeSnoc(before, item.value, ParseItems(Rest()));
        } else if c == Some(']') {
          return Some(out);
        } else {
          return None;
        }
      }
    }
  }

  lemma BeforeNothing(r: Option<(string, string)>)
    ensures Before("", r) == r
  {
    if r.Some? { assert "" + r.value.0 == r.value.0; }
  }

  lemma ItemsBeforeNothing(r: Option<(seq<string>, string)>)
    ensures ItemsBefore([], r) == r
  {
    if r.Some? { assert [] + r.value.0 == r.value.0; }
  }

  lemma ItemsBeforeSnoc(before: seq<string>, v: string, r: Option<(seq<string>, string)>)
    ensures ItemsBefore(before + [v], r) == ItemsBefore(before, ItemsBefore([v], r))
  {
    if r.Some? { assert (before + [v]) + r.value.0 == before + ([v] + r.value.0); }
  }

  lemma UnescapeIsBody(s: string)
    requires s != [] && s[0] == '\\'
    ensures s[1..] != [] && s[1..][0] == 'u' ==>
      Body(s) == if |s[1..]| >= 5 && HexChar(s[1..][1..5]).Some?
                 then Before([HexChar(s[1..][1..5]).value], Body(s[1..][5..])) else None
    ensures !(s[1..] != [] && s[1..][0] == 'u') ==>
      Body(s) == if s[1..] != [] && ShortEscape(s[1..][0]).Some?
                 then Before([ShortEscape(s[1..][0]).value], Body(s[1..][1..])) else None
  {
    if |s| >= 6 { assert s[1..][1..5] == s[2..6] && s[1..][5..] == s[6..]; }
    if |s| >= 2 { assert s[1..][1..] == s[2..]; }
  }

  lemma BeforeSnoc(before: string, out: string, r: Option<(string, string)>)
    requires |out| == |before| + 1 && out[..|before|] == before
    ensures Before(out, r) == Before(before, Before([out[|before|]], r))
  {
    if r.Some? { assert out + r.value.0 == before + ([out[|before|]] + r.value.0); }
  }

  /** Reads the value for a key into what has been seen so far. */
  method MemberValue(parser: JsonParser, key: string, seen: Partial) returns (r: Option<Partial>)
    requires parser.Valid()
    modifies parser
    ensures parser.Valid() && parser.pos >= old(parser.pos)
    ensures match ParseValue(key, seen, old(parser.Rest()))
      case None => r == None
      case Some((p, rest)) => r == Some(p) && parser.Rest() == rest
  {
    hide ParseString, ParseBool, ParseStringArray;
    if key == "name" && seen.name.None? {
      var v := parser.Text();
      return if v.None? then None else Some(seen.(name := v));
    } else if key == "version" && seen.version.None? {
      var v := parser.Text();
      return if v.None? then None else Some(seen.(version := v));
    } else if key == "git_sha" && seen.gitSha.None? {
      var v := parser.Text();
      return if v.None? then None else Some(seen.(gitSha := v));
    } else if key == "profile" && seen.profile.None? {
      var v := parser.Text();
      return if v.None? then None else Some(seen.(profile := v));
    } else if key == "dirty" && seen.dirty.None? {
      var v := parser.Boolean();
      return if v.None? then None else Some(seen.(dirty := v));
    } else if key == "features" && seen.features.None? {
      var v := parser.StringArray();
      return if v.None? then None else Some(seen.(features := v));
    }
    return None;
  }

  /** One key, its colon and its value. */
  method MemberOf(parser: JsonParser, seen: Partial) returns (r: Option<Partial>)
    requires parser.Valid()
    modifies parser
    ensures parser.Valid() && parser.pos >= old(parser.pos)
    ensures match ParseMember(seen, old(parser.Rest()))
      case None => r == None
      case Some((p, rest)) => r == Some(p) && parser.Rest() == rest
  {
    hide SkipWs, ParseString, ParseValue;
    parser.Skip();
    var key := parser.Text();
    if key.None? {
      return None;
    }
    parser.Skip();
    var colon := parser.ExpectChar(':');
    if !colon {
      return None;
    }
    parser.Skip();
    r := MemberValue(parser, key.value, seen);
    if r.Some? {
      parser.Skip();
    }
  }

  method ParseStampJson(text: string) returns (r: Option<RawStamp>)
    ensures r == ParseStamp(text)
  {
    hide SkipWs, ParseMember, Complete;
    var parser := new JsonParser(text);
    parser.Skip();
    var open := parser.ExpectChar('{');
    if !open {
      return None;
    }
    parser.Skip();
    var seen := NOTHING;
    var next := parser.Peek();
    if next == Some('}') {
      next := parser.Bump();
    } else {
      ghost var start := parser.Rest();
      while true
        invariant parser.Valid() && fresh(parser)
        invariant ParseMembers(seen, parser.Rest()) == ParseMembers(NOTHING, start)
        decreases |parser.chars| - parser.pos
      {
        var member := MemberOf(parser, seen);
        if member.None? {
          return None;
        }
        seen := member.value;
        var c := parser.Bump();
        if c == Some('}') {
          break;
        } else if c != Some(',') {
          return None;
        }
      }
      assert ParseMembers(NOTHING, start) == Some((seen, parser.Rest()));
    }
    parser.Skip();
    var end := parser.Peek();
    if end.Some? {
      return None;
    }
    return Complete(seen);
  }
}
