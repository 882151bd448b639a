/** The build-stamp parser: exactly one JSON object with six known keys. */
module StampJson {
  import opened Wrappers

  datatype RawStamp = RawStamp(
    name: string, version: string, gitSha: string, dirty: bool, profile: string, features: seq<string>)

  // ----- characters

  predicate IsWs(c: char) { c == ' ' || c == '\t' || c == '\n' || c == '\r' }

  predicate AllWs(s: string) { forall i :: 0 <= i < |s| ==> IsWs(s[i]) }

  function HexDigit(c: char): Option<nat> {
    if '0' <= c <= '9' then Some((c as int) - ('0' as int))
    else if 'a' <= c <= 'f' then Some((c as int) - ('a' as int) + 10)
    else if 'A' <= c <= 'F' then Some((c as int) - ('A' as int) + 10)
    else None
  }

  function HexDigits(h: string): Option<nat> {
    if h == [] then Some(0)
    else
      var high :- HexDigits(h[..|h| - 1]);
      var low :- HexDigit(h[|h| - 1]);
      Some(16 * high + low)
  }

  /** Radix-16 parsing as the standard library does it: a leading plus sign is skipped. */
  function FromStrRadix16(h: string): Option<nat> {
    if h == [] then None
    else if h[0] == '+' then (if |h| == 1 then None else HexDigits(h[1..]))
    else HexDigits(h)
  }

  predicate IsScalar(n: nat) { n < 0xD800 || 0xE000 <= n < 0x11_0000 }

  /** The character four characters after a backslash-u stand for. */
  function HexChar(h: string): Option<char> {
    var n :- FromStrRadix16(h);
    if IsScalar(n) then Some(n as char) else None
  }

  function ShortEscape(e: char): Option<char> {
    if e == '"' || e == '\\' || e == '/' then Some(e)
    else if e == 'b' then Some('\U{8}')
    else if e == 'f' then Some('\U{c}')
    else if e == 'n' then Some('\n')
    else if e == 'r' then Some('\r')
    else if e == 't' then Some('\t')
    else None
  }

  // ----- the parser, on the text still to be read

  function SkipWs(s: string): (r: string)
    ensures |r| <= |s|
  {
    if s != [] && IsWs(s[0]) then SkipWs(s[1..]) else s
  }

  function Expect(s: string, c: char): Option<string> {
    if s != [] && s[0] == c then Some(s[1..]) else None
  }

  /** The rest of a string literal, after its opening quote. */
  function Body(s: string): (r: Option<(string, string)>)
    ensures r.Some? ==> |r.value.1| < |s|
  {
    if s == [] then None
    else if s[0] == '"' then Some(("", s[1..]))
    else if s[0] == '\\' then
      if |s| < 2 then None
      else if s[1] == 'u' then
        if |s| < 6 then None
        else
          var c :- HexChar(s[2..6]);
          var (v, rest) :- Body(s[6..]);
          Some(([c] + v, rest))
      else
        var c :- ShortEscape(s[1]);
        var (v, rest) :- Body(s[2..]);
        Some(([c] + v, rest))
    else if s[0] < ' ' then None
    else
      var (v, rest) :- Body(s[1..]);
      Some(([s[0]] + v, rest))
  }

  function ParseString(s: string): (r: Option<(string, string)>)
    ensures r.Some? ==> |r.value.1| < |s|
  {
    var s1 :- Expect(s, '"');
    Body(s1)
  }

  function ParseBool(s: string): (r: Option<(bool, string)>)
    ensures r.Some? ==> |r.value.1| < |s|
  {
    if "true" <= s then Some((true, s[4..]))
    else if "false" <= s then Some((false, s[5..]))
    else None
  }

  /** Array elements up to the closing bracket. */
  function ParseItems(s: string): (r: Option<(seq<string>, string)>)
    ensures r.Some? ==> |r.value.1| < |s|
    decreases |s|
  {
    var (v, s1) :- ParseString(SkipWs(s));
    var s2 := SkipWs(s1);
    if s2 == [] then None
    else if s2[0] == ',' then
      var (vs, rest) :- ParseItems(s2[1..]);
      Some(([v] + vs, rest))
    else if s2[0] == ']' then Some(([v], s2[1..]))
    else None
  }

  function ParseStringArray(s: string): (r: Option<(seq<string>, string)>)
    ensures r.Some? ==> |r.value.1| < |s|
  {
    var s1 :- Expect(s, '[');
    var s2 := SkipWs(s1);
    if s2 != [] && s2[0] == ']' then Some(([], s2[1..])) else ParseItems(s2)
  }

  /** Keys seen so far. */
  datatype Partial = Partial(
    name: Option<string>, version: Option<string>, gitSha: Option<string>, dirty: Option<bool>,
    profile: Option<string>, features: Option<seq<string>>)

  const NOTHING := Partial(None, None, None, None, None, None)

  function ParseValue(key: string, p: Partial, s: string): (r: Option<(Partial, string)>)
    ensures r.Some? ==> |r.value.1| < |s|
  {
    if key == "name" && p.name.None? then
      var (v, rest) :- ParseString(s); Some((p.(name := Some(v)), rest))
    else if key == "version" && p.version.None? then
      var (v, rest) :- ParseString(s); Some((p.(version := Some(v)), rest))
    else if key == "git_sha" && p.gitSha.None? then
      var (v, rest) :- ParseString(s); Some((p.(gitSha := Some(v)), rest))
    else if key == "profile" && p.profile.None? then
      var (v, rest) :- ParseString(s); Some((p.(profile := Some(v)), rest))
    else if key == "dirty" && p.dirty.None? then
      var (v, rest) :- ParseBool(s); Some((p.(dirty := Some(v)), rest))
    else if key == "features" && p.features.None? then
      var (v, rest) :- ParseStringArray(s); Some((p.(features := Some(v)), rest))
    else None
  }

  function ParseMember(p: Partial, s: string): (r: Option<(Partial, string)>)
    ensures r.Some? ==> |r.value.1| < |s|
  {
    var (key, s1) :- ParseString(SkipWs(s));
    var s2 :- Expect(SkipWs(s1), ':');
    var (p', s3) :- ParseValue(key, p, SkipWs(s2));
    Some((p', SkipWs(s3)))
  }

  function ParseMembers(p: Partial, s: string): (r: Option<(Partial, string)>)
    ensures r.Some? ==> |r.value.1| < |s|
    decreases |s|
  {
    var (p', s1) :- ParseMember(p, s);
    if s1 == [] then None
    else if s1[0] == ',' then ParseMembers(p', s1[1..])
    else if s1[0] == '}' then Some((p', s1[1..]))
    else None
  }

  function Complete(p: Partial): Option<RawStamp> {
    var name :- p.name;
    var version :- p.version;
    var gitSha :- p.gitSha;
    var dirty :- p.dirty;
    var profile :- p.profile;
    var features :- p.features;
    Some(RawStamp(name, version, gitSha, dirty, profile, features))
  }

  function ParseStamp(text: string): Option<RawStamp> {
    var s1 :- Expect(SkipWs(text), '{');
    var s2 := SkipWs(s1);
    var (p, s3) :-
      if s2 != [] && s2[0] == '}' then Some((NOTHING, s2[1..])) else ParseMembers(NOTHING, s2);
    if SkipWs(s3) != [] then None else Complete(p)
  }
}
