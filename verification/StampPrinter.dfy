/** The two version printers whose output the stamp parser reads: the origin's escapes its strings, the
    server's writes them as they are. */
module StampPrinter {
  import opened Wrappers
  import opened StampJson
  import opened StampGrammar

  // ----- escaping

  /** Quotes, backslashes and the three common control characters as short escapes, other control
      characters as four digits, all else as itself. */
  function EscapedChar(c: char): string {
    match c
    case '"' => "\\\""
    case '\\' => "\\\\"
    case '\n' => "\\n"
    case '\r' => "\\r"
    case '\t' => "\\t"
    case _ =>
      if c < ' ' then ['\\', 'u', '0', '0', if (c as int) < 16 then '0' else '1', LowNibble((c as int) % 16)] else [c]
  }

  function Escaped(v: string): string {
    if v == [] then "" else Escaped(v[..|v| - 1]) + EscapedChar(v[|v| - 1])
  }

  method JsonEscape(input: string) returns (out: string)
    ensures out == Escaped(input)
    ensures forall rest :: Body(out + (['"'] + rest)) == Some((input, rest))
  {
    hide EscapedChar;
    out := "";
    for i := 0 to |input|
      invariant out == Escaped(input[..i])
    {
      assert input[..i + 1][..i] == input[..i];
      out := out + EscapedChar(input[i]);
    }
    assert input[..|input|] == input;
    forall rest ensures Body(out + (['"'] + rest)) == Some((input, rest)) {
      EscapedReads(input, rest);
    }
  }

  /** Reading with something in front. */
  function Prepend(v: string, r: Option<(string, string)>): Option<(string, string)> {
    match r
    case None => None
    case Some((w, rest)) => Some((v + w, rest))
  }

  lemma PrependTwice(a: string, b: string, r: Option<(string, string)>)
    ensures Prepend(a, Prepend(b, r)) == Prepend(a + b, r) && Prepend("", r) == r
  {
    if r.Some? { assert a + (b + r.value.0) == (a + b) + r.value.0 && "" + r.value.0 == r.value.0; }
  }

  lemma CharReads(c: char, s: string)
    ensures Body(EscapedChar(c) + s) == Prepend([c], Body(s))
  {
    SpellMeans(c);
    CharSpelled(c, s);
    BodyOfPiece(Spell(c), s);
    hide Spell, EscapedChar, Body, PieceOk, PieceChar, PieceThen;
  }

  lemma CharSpelled(c: char, rest: string)
    ensures PieceThen(Spell(c), rest) == EscapedChar(c) + rest
  {
    hide LowNibble;
  }

  lemma {:induction false} PrefixReads(v: string, s: string)
    ensures Body(Escaped(v) + s) == Prepend(v, Body(s))
  {
    hide Body, EscapedChar, Prepend;
    if v == [] {
      assert "" + s == s;
      PrependTwice("", "", Body(s));
    } else {
      var n := |v| - 1;
      var c := v[n];
      CharReads(c, s);
      PrefixReads(v[..n], EscapedChar(c) + s);
      assert Escaped(v[..n]) + (EscapedChar(c) + s) == (Escaped(v[..n]) + EscapedChar(c)) + s;
      PrependTwice(v[..n], [c], Body(s));
      assert v[..n] + [c] == v;
    }
  }

  /** An escaped string is read back, whatever it is. */
  lemma EscapedReads(v: string, rest: string)
    ensures Body(Escaped(v) + (['"'] + rest)) == Some((v, rest))
  {
    assert (['"'] + rest)[1..] == rest;
    assert Body(['"'] + rest) == Some(("", rest));
    hide Escaped, Body;
    PrefixReads(v, ['"'] + rest);
    assert v + "" == v;
  }

  // ----- writing as it is

  /** A text that needs no escape. */
  predicate Plain(v: string) { forall i :: 0 <= i < |v| ==> v[i] != '"' && v[i] != '\\' && v[i] >= ' ' }

  lemma {:induction false} PlainReads(v: string, rest: string)
    requires Plain(v)
    ensures Body(v + (['"'] + rest)) == Some((v, rest))
  {
    var t := v + (['"'] + rest);
    if v == [] {
      assert t[1..] == rest;
    } else {
      assert t[0] == v[0] && t[1..] == v[1..] + (['"'] + rest);
      PlainReads(v[1..], rest);
      assert v == [v[0]] + v[1..];
    }
  }

  /** What is read ends at the first quote, or that quote was read as an escape: then a quote is read
      at an earlier place than it was written. */
  predicate ReadUpTo(t: string, f: nat, w: string)
    requires f < |t|
  {
    || (w == t[..f] && Plain(w))
    || |w| < f
    || exists g :: 0 <= g < f && g < |w| && w[g] == '"'
  }

  lemma ReadOneMore(t: string, k: nat, f: nat, c: char, w: string)
    requires 1 <= k <= f < |t| && ReadUpTo(t[k..], f - k, w) && (k == 1 ==> c == t[0] && Plain([c]))
    ensures ReadUpTo(t, f, [c] + w)
  {
    var v := [c] + w;
    if w == t[k..][..f - k] && Plain(w) {
      if k == 1 {
        assert v == t[..f];
        assert Plain(v) by { assert Plain([c]) && [c][0] == c; }
      }
    } else if |w| >= f - k {
      var g :| 0 <= g < f - k && g < |w| && w[g] == '"';
      assert v[g + 1] == '"';
    }
  }

  lemma {:induction false} FirstQuote(t: string, f: nat)
    requires f < |t| && t[f] == '"' && (forall i :: 0 <= i < f ==> t[i] != '"') && Body(t).Some?
    ensures ReadUpTo(t, f, Body(t).value.0)
    decreases f
  {
    hide HexChar;
    if f == 0 {
      assert t[..0] == "";
    } else if t[0] == '\\' {
      if f == 1 {
        assert Body(t).value.0[0] == '"';
      } else {
        var k := if t[1] == 'u' then 6 else 2;
        if k == 6 { QuoteIsLater(t, f); }
        FirstQuote(t[k..], f - k);
        ReadOneMore(t, k, f, Body(t).value.0[0], Body(t[k..]).value.0);
      }
    } else {
      FirstQuote(t[1..], f - 1);
      ReadOneMore(t, 1, f, t[0], Body(t[1..]).value.0);
    }
  }

  lemma {:induction false} QuoteIsNoHex(h: string)
    requires '"' in h
    ensures HexDigits(h).None?
  {
    var n := |h| - 1;
    assert h == h[..n] + [h[n]];
    if h[n] != '"' { QuoteIsNoHex(h[..n]); }
  }

  lemma QuoteIsNoDigit(h: string)
    requires |h| == 4
    ensures HexChar(h).Some? ==> '"' !in h
  {
    if '"' in h {
      QuoteIsNoHex(h);
      if h[0] == '+' {
        assert h == [h[0]] + h[1..];
        QuoteIsNoHex(h[1..]);
      }
    }
  }

  lemma QuoteIsLater(t: string, f: nat)
    requires 2 <= f < |t| && t[f] == '"' && |t| >= 6 && HexChar(t[2..6]).Some?
    ensures f >= 6
  {
    if f < 6 {
      assert t[2..6][f - 2] == t[f];
      QuoteIsNoDigit(t[2..6]);
    }
  }

  /** A string written as it is is read back exactly when it needs no escape. */
  lemma RawReads(v: string, rest: string)
    ensures var r := Body(v + (['"'] + rest)); r.Some? && r.value.0 == v <==> Plain(v)
    ensures Plain(v) ==> Body(v + (['"'] + rest)) == Some((v, rest))
  {
    var t := v + (['"'] + rest);
    if Plain(v) {
      PlainReads(v, rest);
    } else if Body(t).Some? {
      hide Body;
      var f := QuotePlace(v);
      assert t[f] == '"' && forall i :: 0 <= i < f ==> t[i] == v[i];
      FirstQuote(t, f);
      assert t[..f] == v[..f];
    }
  }

  /** The first quote of a text and a quote after it. */
  lemma {:induction false} QuotePlace(v: string) returns (f: nat)
    ensures f <= |v| && (f < |v| ==> v[f] == '"') && forall i :: 0 <= i < f ==> v[i] != '"'
  {
    f := 0;
    if v != [] && v[0] != '"' {
      f := QuotePlace(v[1..]);
      f := f + 1;
    }
  }

  // ----- members

  /** One key, its value, and the rest of the object. */
  function Field(key: string, value: string, rest: string): string {
    ['"'] + (key + (['"'] + ([':'] + (value + rest))))
  }

  /** A key and a value that starts at once are read as such. */
  lemma MemberReads(p: Partial, key: string, value: string, rest: string)
    requires Plain(key) && value != [] && !IsWs(value[0])
    ensures ParseMember(p, Field(key, value, rest)) == match ParseValue(key, p, value + rest)
      case None => None
      case Some((q, s)) => Some((q, SkipWs(s)))
  {
    var t := value + rest;
    var u := [':'] + t;
    var all := Field(key, value, rest);
    PlainReads(key, u);
    assert all[1..] == key + (['"'] + u);
    assert u[1..] == t && t[0] == value[0];
    hide Body, ParseValue, Plain;
  }

  /** What is stored stays stored. */
  lemma ValueStays(key: string, p: Partial, s: string, stamp: RawStamp)
    requires ParseValue(key, p, s).Some? && Agrees(ParseValue(key, p, s).value.0, stamp)
    ensures Agrees(p, stamp)
  {
    hide ParseString, ParseBool, ParseStringArray;
  }

  lemma {:induction false} MembersStay(p: Partial, s: string, stamp: RawStamp)
    requires ParseMembers(p, s).Some? && Agrees(ParseMembers(p, s).value.0, stamp)
    ensures Agrees(p, stamp)
    decreases |s|
  {
    hide Agrees, ParseValue, SkipWs;
    var (key, s1) := ParseString(SkipWs(s)).value;
    var s2 := Expect(SkipWs(s1), ':').value;
    var (p', r) := ParseMember(p, s).value;
    if r[0] == ',' { MembersStay(p', r[1..], stamp); }
    ValueStays(key, p, SkipWs(s2), stamp);
  }

  /** After the members so far have been read into p, does reading the rest give the stamp? */
  predicate GivesStamp(p: Partial, s: string, stamp: RawStamp) {
    match ParseMembers(p, s)
    case None => false
    case Some((q, rest)) => SkipWs(rest) == [] && Complete(q) == Some(stamp)
  }

  /** A member that is read up to its comma as its key's value. */
  lemma MemberThenMore(p: Partial, key: string, value: string, more: string, q: Partial, stamp: RawStamp)
    requires Plain(key) && value != [] && !IsWs(value[0])
    requires ParseValue(key, p, value + ([','] + more)) == Some((q, [','] + more))
    ensures GivesStamp(p, Field(key, value, [','] + more), stamp) <==> GivesStamp(q, more, stamp)
  {
    MemberReads(p, key, value, [','] + more);
    assert SkipWs([','] + more) == [','] + more && ([','] + more)[1..] == more;
    hide ParseMember, ParseValue, SkipWs, Complete, Plain, Field;
  }

  /** A member that is not read as the stamp's value spoils the stamp. */
  lemma MemberSpoils(p: Partial, key: string, value: string, rest: string, stamp: RawStamp)
    requires Plain(key) && value != [] && !IsWs(value[0])
    requires var r := ParseValue(key, p, value + rest); r.Some? ==> !Agrees(r.value.0, stamp)
    ensures !GivesStamp(p, Field(key, value, rest), stamp)
  {
    MemberReads(p, key, value, rest);
    var s := Field(key, value, rest);
    if GivesStamp(p, s, stamp) {
      CompleteAgrees(ParseMembers(p, s).value.0, stamp);
      hide ParseValue, SkipWs, Complete, Plain, Field, Agrees;
      var (q, r) := ParseMember(p, s).value;
      hide ParseMember;
      if r[0] == ',' { MembersStay(q, r[1..], stamp); }
    }
  }

  lemma CompleteAgrees(p: Partial, stamp: RawStamp)
    requires Complete(p) == Some(stamp)
    ensures Agrees(p, stamp)
  {
  }

  /** The last member, with the brace and the newline after it. */
  lemma LastMember(p: Partial, key: string, value: string, q: Partial, stamp: RawStamp)
    requires Plain(key) && value != [] && !IsWs(value[0])
    requires ParseValue(key, p, value + "}\n") == Some((q, "}\n"))
    ensures GivesStamp(p, Field(key, value, "}\n"), stamp) <==> Complete(q) == Some(stamp)
  {
    MemberReads(p, key, value, "}\n");
    assert SkipWs("}\n") == "}\n" && "}\n"[1..] == "\n" && "\n"[1..] == "";
    assert SkipWs("\n") == "";
    hide ParseMember, ParseValue, SkipWs, Complete, Plain, Field;
  }

  // ----- values

  const STRING_KEYS: set<string> := {"name", "version", "git_sha", "profile"}

  function StringOf(stamp: RawStamp, key: string): string {
    if key == "name" then stamp.name
    else if key == "version" then stamp.version
    else if key == "git_sha" then stamp.gitSha
    else stamp.profile
  }

  function Put(p: Partial, key: string, v: string): Partial {
    if key == "name" then p.(name := Some(v))
    else if key == "version" then p.(version := Some(v))
    else if key == "git_sha" then p.(gitSha := Some(v))
    else p.(profile := Some(v))
  }

  predicate Unset(p: Partial, key: string) {
    if key == "name" then p.name.None?
    else if key == "version" then p.version.None?
    else if key == "git_sha" then p.gitSha.None?
    else p.profile.None?
  }

  lemma StringKeyIsPlain(key: string)
    requires key in STRING_KEYS
    ensures Plain(key)
  {
    assert Plain("name") && Plain("version") && Plain("git_sha") && Plain("profile");
  }

  lemma StringValue(p: Partial, key: string, s: string)
    requires key in STRING_KEYS && Unset(p, key)
    ensures ParseValue(key, p, s) == match ParseString(s)
      case None => None
      case Some((v, rest)) => Some((Put(p, key, v), rest))
  {
    hide ParseString;
  }

  lemma PutAgrees(p: Partial, key: string, v: string, stamp: RawStamp)
    requires key in STRING_KEYS && Agrees(Put(p, key, v), stamp)
    ensures v == StringOf(stamp, key)
  {
  }

  function Between(v: string): string { ['"'] + (v + ['"']) }

  lemma BetweenReads(v: string, rest: string)
    ensures ParseString(Between(v) + rest) == Body(v + (['"'] + rest))
    ensures Between(v) != [] && !IsWs(Between(v)[0])
  {
    assert (Between(v) + rest)[1..] == v + (['"'] + rest);
  }

  /** The stamp comes out of a string written as it is exactly when it needs no escape and the stamp
      comes out of the rest. */
  lemma RawField(p: Partial, key: string, more: string, stamp: RawStamp)
    requires key in STRING_KEYS && Unset(p, key)
    ensures var v := StringOf(stamp, key);
      GivesStamp(p, Field(key, Between(v), [','] + more), stamp)
      <==> Plain(v) && GivesStamp(Put(p, key, v), more, stamp)
  {
    var v, rest := StringOf(stamp, key), [','] + more;
    StringKeyIsPlain(key);
    BetweenReads(v, rest);
    RawReads(v, rest);
    StringValue(p, key, Between(v) + rest);
    hide Body, ParseString, ParseValue, Plain, GivesStamp, Field, Between, Put, Unset, StringOf, STRING_KEYS;
    if Plain(v) {
      MemberThenMore(p, key, Between(v), more, Put(p, key, v), stamp);
    } else {
      NotAgrees(p, key, Between(v) + rest, stamp);
      MemberSpoils(p, key, Between(v), rest, stamp);
    }
  }

  lemma NotAgrees(p: Partial, key: string, s: string, stamp: RawStamp)
    requires key in STRING_KEYS && Unset(p, key)
    requires ParseString(s).Some? ==> ParseString(s).value.0 != StringOf(stamp, key)
    ensures var r := ParseValue(key, p, s); r.Some? ==> !Agrees(r.value.0, stamp)
  {
    StringValue(p, key, s);
    hide ParseValue, ParseString, Put, Agrees, StringOf, Unset, STRING_KEYS;
    if ParseString(s).Some? && Agrees(Put(p, key, ParseString(s).value.0), stamp) {
      PutAgrees(p, key, ParseString(s).value.0, stamp);
    }
  }

  lemma RawLast(p: Partial, key: string, stamp: RawStamp)
    requires key in STRING_KEYS && Unset(p, key)
    ensures var v := StringOf(stamp, key);
      GivesStamp(p, Field(key, Between(v), "}\n"), stamp) <==> Plain(v) && Complete(Put(p, key, v)) == Some(stamp)
  {
    var v, rest := StringOf(stamp, key), "}\n";
    StringKeyIsPlain(key);
    BetweenReads(v, rest);
    RawReads(v, rest);
    StringValue(p, key, Between(v) + rest);
    hide Body, ParseString, ParseValue, Plain, GivesStamp, Field, Between, Put, Unset, StringOf, STRING_KEYS, Complete;
    if Plain(v) {
      LastMember(p, key, Between(v), Put(p, key, v), stamp);
    } else {
      NotAgrees(p, key, Between(v) + rest, stamp);
      MemberSpoils(p, key, Between(v), rest, stamp);
    }
  }

  lemma EscapedField(p: Partial, key: string, more: string, stamp: RawStamp)
    requires key in STRING_KEYS && Unset(p, key)
    ensures var v := StringOf(stamp, key);
      GivesStamp(p, Field(key, Between(Escaped(v)), [','] + more), stamp) <==> GivesStamp(Put(p, key, v), more, stamp)
  {
    var v, rest := StringOf(stamp, key), [','] + more;
    StringKeyIsPlain(key);
    BetweenReads(Escaped(v), rest);
    EscapedReads(v, rest);
    StringValue(p, key, Between(Escaped(v)) + rest);
    hide Body, ParseString, ParseValue, Plain, GivesStamp, Field, Between, Put, Unset, StringOf, STRING_KEYS, Escaped;
    MemberThenMore(p, key, Between(Escaped(v)), more, Put(p, key, v), stamp);
  }

  function BoolText(b: bool): string { if b then "true" else "false" }

  lemma DirtyField(p: Partial, more: string, stamp: RawStamp)
    requires p.dirty.None?
    ensures GivesStamp(p, Field("dirty", BoolText(stamp.dirty), [','] + more), stamp)
       <==> GivesStamp(p.(dirty := Some(stamp.dirty)), more, stamp)
  {
    var b, rest := stamp.dirty, [','] + more;
    assert Plain("dirty");
    BoolReads(b, rest);
    hide Plain, GivesStamp, Field;
    MemberThenMore(p, "dirty", BoolText(b), more, p.(dirty := Some(b)), stamp);
  }

  lemma BoolReads(b: bool, rest: string)
    ensures ParseBool(BoolText(b) + rest) == Some((b, rest))
  {
    var t := BoolText(b) + rest;
    if b {
      assert t[4..] == rest;
    } else {
      assert t[..5] == "false" && t[5..] == rest && t[0] == 'f';
    }
  }

  function RawList(vs: seq<string>): string
    requires vs != []
  {
    if |vs| == 1 then Between(vs[0]) else Between(vs[0]) + ([','] + RawList(vs[1..]))
  }

  function RawArray(vs: seq<string>): string { ['['] + ((if vs == [] then "" else RawList(vs)) + [']']) }

  predicate AllPlain(vs: seq<string>) { forall i :: 0 <= i < |vs| ==> Plain(vs[i]) }

  lemma ItemReads(v: string, end: string)
    requires end != [] && !IsWs(end[0])
    ensures var r := ParseString(SkipWs(Between(v) + end));
      (r.Some? && r.value.0 == v <==> Plain(v)) && (Plain(v) ==> r == Some((v, end)) && SkipWs(end) == end)
  {
    BetweenReads(v, end);
    RawReads(v, end);
    assert SkipWs(Between(v) + end) == Between(v) + end;
    hide Body, Plain, Between, ParseString;
  }

  /** A list written as it is is read back exactly when none of its strings needs an escape. */
  lemma {:induction false} ListReads(vs: seq<string>, rest: string)
    requires vs != []
    ensures var r := ParseItems(RawList(vs) + ([']'] + rest));
      (r.Some? && r.value.0 == vs <==> AllPlain(vs)) && (AllPlain(vs) ==> r == Some((vs, rest)))
    decreases |vs|
  {
    var end := if |vs| == 1 then [']'] + rest else [','] + (RawList(vs[1..]) + ([']'] + rest));
    assert RawList(vs) + ([']'] + rest) == Between(vs[0]) + end;
    assert end[1..] == if |vs| == 1 then rest else RawList(vs[1..]) + ([']'] + rest);
    ItemReads(vs[0], end);
    assert vs == [vs[0]] + vs[1..];
    if |vs| > 1 { ListReads(vs[1..], rest); }
    hide RawList, Between, ParseString, SkipWs, Plain;
    assert AllPlain(vs) <==> Plain(vs[0]) && AllPlain(vs[1..]);
  }

  lemma ArrayReads(vs: seq<string>, rest: string)
    ensures var r := ParseStringArray(RawArray(vs) + rest);
      (r.Some? && r.value.0 == vs <==> AllPlain(vs)) && (AllPlain(vs) ==> r == Some((vs, rest)))
  {
    var t := RawArray(vs) + rest;
    if vs == [] {
      assert t[1..] == [']'] + rest && ([']'] + rest)[1..] == rest;
    } else {
      ListReads(vs, rest);
      assert t[1..] == RawList(vs) + ([']'] + rest);
      assert RawList(vs)[0] == '"';
      hide RawList, ParseItems, AllPlain;
    }
  }

  lemma FeaturesField(p: Partial, more: string, stamp: RawStamp)
    requires p.features.None?
    ensures GivesStamp(p, Field("features", RawArray(stamp.features), [','] + more), stamp)
       <==> AllPlain(stamp.features) && GivesStamp(p.(features := Some(stamp.features)), more, stamp)
  {
    var vs, rest := stamp.features, [','] + more;
    assert Plain("features");
    assert RawArray(vs)[0] == '[';
    ArrayReads(vs, rest);
    hide Plain, GivesStamp, Field, RawArray, ParseStringArray, AllPlain;
    if AllPlain(vs) {
      MemberThenMore(p, "features", RawArray(vs), more, p.(features := Some(vs)), stamp);
    } else {
      MemberSpoils(p, "features", RawArray(vs), rest, stamp);
    }
  }

  // ----- the server's line

  /** The six keys in alphabetical order, every string as it is. */
  function ServerLine(s: RawStamp): string {
    ['{'] + ServerMembers(s)
  }

  function ServerMembers(s: RawStamp): string {
    Field("dirty", BoolText(s.dirty), [','] +
    Field("features", RawArray(s.features), [','] +
    Field("git_sha", Between(s.gitSha), [','] +
    Field("name", Between(s.name), [','] +
    Field("profile", Between(s.profile), [','] +
    Field("version", Between(s.version), "}\n"))))))
  }

  predicate ServerPlain(s: RawStamp) {
    AllPlain(s.features) && Plain(s.gitSha) && Plain(s.name) && Plain(s.profile) && Plain(s.version)
  }

  lemma ObjectReads(s: string, stamp: RawStamp)
    requires s != [] && s[0] == '"'
    ensures ParseStamp(['{'] + s) == Some(stamp) <==> GivesStamp(NOTHING, s, stamp)
  {
    assert (['{'] + s)[1..] == s;
    assert SkipWs(['{'] + s) == ['{'] + s && SkipWs(s) == s;
    hide ParseMembers, Complete;
    if ParseMembers(NOTHING, s).Some? {
      var rest := ParseMembers(NOTHING, s).value.1;
      hide SkipWs;
      assert SkipWs(rest) == [] || SkipWs(rest) != [];
    }
  }

  /** The server's line is read back as its stamp exactly when no string in it needs an escape. */
  lemma ServerReadsBack(s: RawStamp)
    ensures ParseStamp(ServerLine(s)) == Some(s) <==> ServerPlain(s)
  {
    assert ServerMembers(s)[0] == '"';
    ObjectReads(ServerMembers(s), s);
    hide ParseStamp, GivesStamp, Field, Plain, AllPlain, BoolText, RawArray, Between;
    var m6 := Field("version", Between(s.version), "}\n");
    var m5 := Field("profile", Between(s.profile), [','] + m6);
    var m4 := Field("name", Between(s.name), [','] + m5);
    var m3 := Field("git_sha", Between(s.gitSha), [','] + m4);
    var m2 := Field("features", RawArray(s.features), [','] + m3);
    var p1 := NOTHING.(dirty := Some(s.dirty));
    var p2 := p1.(features := Some(s.features));
    var p3 := p2.(gitSha := Some(s.gitSha));
    var p4 := p3.(name := Some(s.name));
    var p5 := p4.(profile := Some(s.profile));
    DirtyField(NOTHING, m2, s);
    FeaturesField(p1, m3, s);
    RawField(p2, "git_sha", m4, s);
    RawField(p3, "name", m5, s);
    RawField(p4, "profile", m6, s);
    RawLast(p5, "version", s);
  }

  lemma {:induction false} RawListSnoc(vs: seq<string>, v: string)
    requires vs != []
    ensures RawList(vs + [v]) == RawList(vs) + ([','] + Between(v))
    decreases |vs|
  {
    assert (vs + [v])[0] == vs[0] && (vs + [v])[1..] == vs[1..] + [v];
    if |vs| == 1 {
      assert (vs + [v])[1..] == [v];
    } else {
      RawListSnoc(vs[1..], v);
      hide Between;
      assert Between(vs[0]) + ([','] + (RawList(vs[1..]) + ([','] + Between(v))))
          == (Between(vs[0]) + ([','] + RawList(vs[1..]))) + ([','] + Between(v));
    }
  }

  function Pair(key: string, value: string): string { ['"'] + (key + (['"', ':'] + value)) }

  lemma PairThen(key: string, value: string, rest: string)
    ensures Pair(key, value) + rest == Field(key, value, rest)
  {
  }

  /** What the server prints for its version, given the values its build baked in. */
  method ServerVersionJson(version: string, gitSha: string, dirty: bool, profile: string, features: seq<string>)
      returns (line: string)
    ensures var s := RawStamp("irontraffic", version, gitSha, dirty, profile, features);
      line == ServerLine(s) && (ParseStamp(line) == Some(s) <==> ServerPlain(s))
  {
    hide Between, RawList, Pair, Field, ParseStamp, ServerPlain, BoolText;
    var list := "";
    for index := 0 to |features|
      invariant index == 0 ==> list == ""
      invariant index > 0 ==> list == RawList(features[..index])
    {
      assert features[..index + 1] == features[..index] + [features[index]];
      if index > 0 {
        RawListSnoc(features[..index], features[index]);
        list := list + ([','] + Between(features[index]));
      } else {
        OneItem(features[index]);
        assert features[..index + 1] == [features[index]];
        list := Between(features[index]);
      }
    }
    assert features[..|features|] == features;
    var items := ['['] + (list + [']']);
    var s := RawStamp("irontraffic", version, gitSha, dirty, profile, features);
    assert items == RawArray(features);
    hide RawArray;
    var m6 := Pair("version", Between(version)) + "}\n";
    var m5 := Pair("profile", Between(profile)) + ([','] + m6);
    var m4 := Pair("name", Between("irontraffic")) + ([','] + m5);
    var m3 := Pair("git_sha", Between(gitSha)) + ([','] + m4);
    var m2 := Pair("features", items) + ([','] + m3);
    line := ['{'] + (Pair("dirty", BoolText(dirty)) + ([','] + m2));
    PairThen("version", Between(version), "}\n");
    PairThen("profile", Between(profile), [','] + m6);
    PairThen("name", Between("irontraffic"), [','] + m5);
    PairThen("git_sha", Between(gitSha), [','] + m4);
    PairThen("features", items, [','] + m3);
    PairThen("dirty", BoolText(dirty), [','] + m2);
    ServerReadsBack(s);
  }

  lemma OneItem(v: string)
    ensures RawList([v]) == Between(v)
  {
  }

  // ----- the origin's line

  /** Name first and features last, with the version and the commit escaped. */
  function OriginLine(s: RawStamp): string {
    ['{'] + OriginMembers(s)
  }

  function OriginMembers(s: RawStamp): string {
    Field("name", Between(s.name), [','] +
    Field("version", Between(Escaped(s.version)), [','] +
    Field("git_sha", Between(Escaped(s.gitSha)), [','] +
    Field("dirty", BoolText(s.dirty), [','] +
    Field("profile", Between(s.profile), [','] +
    Field("features", "[]", "}\n"))))))
  }

  lemma NoFeatures(p: Partial, stamp: RawStamp)
    requires p.features.None?
    ensures GivesStamp(p, Field("features", "[]", "}\n"), stamp)
       <==> Complete(p.(features := Some([]))) == Some(stamp)
  {
    assert Plain("features");
    ArrayReads([], "}\n");
    assert RawArray([]) == "[]";
    hide Plain, GivesStamp, Field, RawArray, ParseStringArray, Complete;
    LastMember(p, "features", "[]", p.(features := Some([])), stamp);
  }

  /** The origin's line is read back as its stamp, whatever its version and commit are. */
  lemma OriginReadsBack(s: RawStamp)
    requires s.features == []
    ensures ParseStamp(OriginLine(s)) == Some(s) <==> Plain(s.name) && Plain(s.profile)
  {
    assert OriginMembers(s)[0] == '"';
    ObjectReads(OriginMembers(s), s);
    hide ParseStamp, GivesStamp, Field, Plain, BoolText, Between, Escaped;
    var m6 := Field("features", "[]", "}\n");
    var m5 := Field("profile", Between(s.profile), [','] + m6);
    var m4 := Field("dirty", BoolText(s.dirty), [','] + m5);
    var m3 := Field("git_sha", Between(Escaped(s.gitSha)), [','] + m4);
    var m2 := Field("version", Between(Escaped(s.version)), [','] + m3);
    var p1 := NOTHING.(name := Some(s.name));
    var p2 := p1.(version := Some(s.version));
    var p3 := p2.(gitSha := Some(s.gitSha));
    var p4 := p3.(dirty := Some(s.dirty));
    var p5 := p4.(profile := Some(s.profile));
    RawField(NOTHING, "name", m2, s);
    EscapedField(p1, "version", m3, s);
    EscapedField(p2, "git_sha", m4, s);
    DirtyField(p3, m5, s);
    RawField(p4, "profile", m6, s);
    NoFeatures(p5, s);
  }

  /** What the origin prints for its version. */
  method OriginVersionJson(version: string, gitSha: string, dirty: bool, debug: bool) returns (line: string)
    ensures ParseStamp(line)
         == Some(RawStamp("it-origin", version, gitSha, dirty, if debug then "debug" else "release", []))
  {
    var profile := if debug then "debug" else "release";
    var s := RawStamp("it-origin", version, gitSha, dirty, profile, []);
    assert Plain("it-origin") && Plain("debug") && Plain("release");
    hide Between, Pair, Field, ParseStamp, Plain, BoolText, Escaped;
    var v := JsonEscape(version);
    var sha := JsonEscape(gitSha);
    var m6 := Pair("features", "[]") + "}\n";
    var m5 := Pair("profile", Between(profile)) + ([','] + m6);
    var m4 := Pair("dirty", BoolText(dirty)) + ([','] + m5);
    var m3 := Pair("git_sha", Between(sha)) + ([','] + m4);
    var m2 := Pair("version", Between(v)) + ([','] + m3);
    line := ['{'] + (Pair("name", Between("it-origin")) + ([','] + m2));
    PairThen("features", "[]", "}\n");
    PairThen("profile", Between(profile), [','] + m6);
    PairThen("dirty", BoolText(dirty), [','] + m5);
    PairThen("git_sha", Between(sha), [','] + m4);
    PairThen("version", Between(v), [','] + m3);
    PairThen("name", Between("it-origin"), [','] + m2);
    OriginReadsBack(s);
  }
}
