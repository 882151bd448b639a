/** The language the build-stamp parser accepts, as a printer of concrete syntax. Printing is written
    as "this, then the rest of the text". */
module StampGrammar {
  import opened StampJson
  import opened Wrappers

  // ----- strings

  /** One character of a literal: written as itself, as a short escape, or as backslash-u. */
  datatype Piece = Raw(c: char) | Short(e: char) | Hex(h: string)

  predicate PieceOk(p: Piece) {
    match p
    case Raw(c) => c != '"' && c != '\\' && c >= ' '
    case Short(e) => ShortEscape(e).Some?
    case Hex(h) => |h| == 4 && HexChar(h).Some?
  }

  predicate PiecesOk(ps: seq<Piece>) { forall i :: 0 <= i < |ps| ==> PieceOk(ps[i]) }

  function PieceChar(p: Piece): char
    requires PieceOk(p)
  {
    match p
    case Raw(c) => c
    case Short(e) => ShortEscape(e).value
    case Hex(h) => HexChar(h).value
  }

  function PieceThen(p: Piece, rest: string): string {
    match p
    case Raw(c) => [c] + rest
    case Short(e) => ['\\', e] + rest
    case Hex(h) => ['\\', 'u'] + h + rest
  }

  function Meaning(ps: seq<Piece>): string
    requires PiecesOk(ps)
  {
    if ps == [] then "" else [PieceChar(ps[0])] + Meaning(ps[1..])
  }

  function PiecesThen(ps: seq<Piece>, rest: string): string {
    if ps == [] then ['"'] + rest else PieceThen(ps[0], PiecesThen(ps[1..], rest))
  }

  function StringThen(ps: seq<Piece>, rest: string): string {
    ['"'] + PiecesThen(ps, rest)
  }

  lemma BodyOfPiece(p: Piece, s: string)
    requires PieceOk(p)
    ensures Body(PieceThen(p, s)) == match Body(s)
      case None => None
      case Some((v, rest)) => Some(([PieceChar(p)] + v, rest))
  {
    var t := PieceThen(p, s);
    match p {
      case Raw(c) => assert t[1..] == s;
      case Short(e) => assert t[2..] == s;
      case Hex(h) => assert t[2..6] == h && t[6..] == s;
    }
  }

  lemma {:induction false} BodyComplete(ps: seq<Piece>, rest: string)
    requires PiecesOk(ps)
    ensures Body(PiecesThen(ps, rest)) == Some((Meaning(ps), rest))
  {
    if ps == [] {
      assert (['"'] + rest)[1..] == rest;
    } else {
      BodyComplete(ps[1..], rest);
      BodyOfPiece(ps[0], PiecesThen(ps[1..], rest));
    }
  }

  /** The piece a literal starts with, unless it ends there. */
  lemma FirstPiece(s: string) returns (p: Piece, t: string)
    requires Body(s).Some? && s[0] != '"'
    ensures PieceOk(p) && s == PieceThen(p, t) && |t| < |s| && Body(t).Some?
  {
    if s[0] == '\\' {
      if s[1] == 'u' {
        p, t := Hex(s[2..6]), s[6..];
        assert s == ['\\', 'u'] + s[2..6] + s[6..];
      } else {
        p, t := Short(s[1]), s[2..];
        assert s == ['\\', s[1]] + s[2..];
      }
    } else {
      p, t := Raw(s[0]), s[1..];
    }
  }

  lemma {:induction false} BodySound(s: string) returns (ps: seq<Piece>)
    requires Body(s).Some?
    ensures PiecesOk(ps) && s == PiecesThen(ps, Body(s).value.1) && Meaning(ps) == Body(s).value.0
    decreases |s|
  {
    if s[0] == '"' {
      ps := [];
    } else {
      var p, t := FirstPiece(s);
      var qs := BodySound(t);
      BodyOfPiece(p, t);
      ps := [p] + qs;
      assert ps[1..] == qs;
    }
  }

  lemma StringComplete(ps: seq<Piece>, rest: string)
    requires PiecesOk(ps)
    ensures ParseString(StringThen(ps, rest)) == Some((Meaning(ps), rest))
  {
    assert StringThen(ps, rest)[1..] == PiecesThen(ps, rest);
    BodyComplete(ps, rest);
  }

  lemma StringSound(s: string) returns (ps: seq<Piece>)
    requires ParseString(s).Some?
    ensures PiecesOk(ps) && s == StringThen(ps, ParseString(s).value.1) && Meaning(ps) == ParseString(s).value.0
  {
    ps := BodySound(s[1..]);
  }

  // ----- white space

  predicate StartsSolid(s: string) { s == [] || !IsWs(s[0]) }

  lemma {:induction false} SkipOver(ws: string, s: string)
    requires AllWs(ws) && StartsSolid(s)
    ensures SkipWs(ws + s) == s
  {
    if ws == [] {
      assert ws + s == s;
    } else {
      assert (ws + s)[1..] == ws[1..] + s;
      SkipOver(ws[1..], s);
    }
  }

  lemma {:induction false} Skipped(s: string) returns (ws: string)
    ensures AllWs(ws) && s == ws + SkipWs(s) && StartsSolid(SkipWs(s))
  {
    if s != [] && IsWs(s[0]) {
      ws := Skipped(s[1..]);
      ws := [s[0]] + ws;
    } else {
      ws := [];
    }
  }

  // ----- arrays of strings

  datatype Item = Item(before: string, text: seq<Piece>, after: string)

  predicate ItemOk(i: Item) { AllWs(i.before) && PiecesOk(i.text) && AllWs(i.after) }

  predicate ItemsOk(items: seq<Item>) { forall i :: 0 <= i < |items| ==> ItemOk(items[i]) }

  function ItemValues(items: seq<Item>): seq<string>
    requires ItemsOk(items)
  {
    if items == [] then [] else [Meaning(items[0].text)] + ItemValues(items[1..])
  }

  function ItemsThen(items: seq<Item>, rest: string): string
    requires items != []
  {
    var i := items[0];
    i.before + StringThen(i.text, i.after +
      (if |items| == 1 then [']'] + rest else [','] + ItemsThen(items[1..], rest)))
  }

  lemma ItemParse(i: Item, s: string)
    requires ItemOk(i) && StartsSolid(s)
    ensures ParseString(SkipWs(i.before + StringThen(i.text, i.after + s))) == Some((Meaning(i.text), i.after + s))
    ensures SkipWs(i.after + s) == s
  {
    SkipOver(i.before, StringThen(i.text, i.after + s));
    StringComplete(i.text, i.after + s);
    SkipOver(i.after, s);
  }

  lemma {:induction false} ItemsComplete(items: seq<Item>, rest: string)
    requires items != [] && ItemsOk(items)
    ensures ParseItems(ItemsThen(items, rest)) == Some((ItemValues(items), rest))
    decreases |items|
  {
    var i := items[0];
    if |items| == 1 {
      ItemParse(i, [']'] + rest);
      assert ([']'] + rest)[1..] == rest;
      assert items[1..] == [];
      assert ItemValues(items) == [Meaning(i.text)];
      hide ParseString, SkipWs, StringThen;
    } else {
      var more := ItemsThen(items[1..], rest);
      ItemParse(i, [','] + more);
      assert ([','] + more)[1..] == more;
      ItemsComplete(items[1..], rest);
      hide ParseString, SkipWs, StringThen;
    }
  }

  lemma ItemSound(s: string) returns (i: Item)
    requires ParseString(SkipWs(s)).Some?
    ensures var (v, s1) := ParseString(SkipWs(s)).value;
      ItemOk(i) && Meaning(i.text) == v && s == i.before + StringThen(i.text, i.after + SkipWs(s1))
  {
    var before := Skipped(s);
    var text := StringSound(SkipWs(s));
    var s1 := ParseString(SkipWs(s)).value.1;
    var after := Skipped(s1);
    i := Item(before, text, after);
    assert i.after + SkipWs(s1) == s1;
  }

  lemma {:induction false} ItemsSound(s: string) returns (items: seq<Item>)
    requires ParseItems(s).Some?
    ensures items != [] && ItemsOk(items)
    ensures s == ItemsThen(items, ParseItems(s).value.1) && ItemValues(items) == ParseItems(s).value.0
    decreases |s|
  {
    var i := ItemSound(s);
    var s2 := SkipWs(ParseString(SkipWs(s)).value.1);
    var rest := ParseItems(s).value.1;
    hide ParseString, SkipWs, StringThen;
    assert s2 == [s2[0]] + s2[1..];
    if s2[0] == ',' {
      var more := ItemsSound(s2[1..]);
      items := [i] + more;
      assert items[1..] == more;
      assert s2[1..] == ItemsThen(more, rest);
    } else {
      items := [i];
      assert s2[1..] == rest;
      assert items[1..] == [];
      assert ItemValues(items) == [Meaning(i.text)];
    }
  }

  // ----- values

  datatype Value = Str(text: seq<Piece>) | Bool(b: bool) | NoItems(inside: string) | Items(items: seq<Item>)

  predicate ValueOk(v: Value) {
    match v
    case Str(text) => PiecesOk(text)
    case Bool(_) => true
    case NoItems(inside) => AllWs(inside)
    case Items(items) => items != [] && ItemsOk(items)
  }

  function ValueThen(v: Value, rest: string): string
    requires ValueOk(v)
  {
    match v
    case Str(text) => StringThen(text, rest)
    case Bool(b) => (if b then "true" else "false") + rest
    case NoItems(inside) => ['['] + (inside + ([']'] + rest))
    case Items(items) => ['['] + ItemsThen(items, rest)
  }

  datatype Key = Name | Version | GitSha | Dirty | Profile | Features

  function KeyOf(name: string): Option<Key> {
    if name == "name" then Some(Name)
    else if name == "version" then Some(Version)
    else if name == "git_sha" then Some(GitSha)
    else if name == "profile" then Some(Profile)
    else if name == "dirty" then Some(Dirty)
    else if name == "features" then Some(Features)
    else None
  }

  /** Recording a value under a key: refused for a key already present or a value of the wrong type. */
  function Assign(key: Key, p: Partial, v: Value): Option<Partial>
    requires ValueOk(v)
  {
    match (key, v)
    case (Name, Str(text)) => if p.name.None? then Some(p.(name := Some(Meaning(text)))) else None
    case (Version, Str(text)) => if p.version.None? then Some(p.(version := Some(Meaning(text)))) else None
    case (GitSha, Str(text)) => if p.gitSha.None? then Some(p.(gitSha := Some(Meaning(text)))) else None
    case (Profile, Str(text)) => if p.profile.None? then Some(p.(profile := Some(Meaning(text)))) else None
    case (Dirty, Bool(b)) => if p.dirty.None? then Some(p.(dirty := Some(b))) else None
    case (Features, NoItems(_)) => if p.features.None? then Some(p.(features := Some([]))) else None
    case (Features, Items(items)) => if p.features.None? then Some(p.(features := Some(ItemValues(items)))) else None
    case _ => None
  }

  function AssignNamed(name: string, p: Partial, v: Value): Option<Partial>
    requires ValueOk(v)
  {
    var key :- KeyOf(name);
    Assign(key, p, v)
  }

  lemma BoolComplete(b: bool, rest: string)
    ensures ParseBool((if b then "true" else "false") + rest) == Some((b, rest))
  {
    var word := if b then "true" else "false";
    assert (word + rest)[|word|..] == rest;
    assert !b ==> (word + rest)[0] == 'f';
  }

  lemma NoItemsComplete(inside: string, rest: string)
    requires AllWs(inside)
    ensures ParseStringArray(['['] + (inside + ([']'] + rest))) == Some(([], rest))
  {
    var s := ['['] + (inside + ([']'] + rest));
    assert s[1..] == inside + ([']'] + rest);
    SkipOver(inside, [']'] + rest);
    assert ([']'] + rest)[1..] == rest;
  }

  lemma SkipTwice(s: string)
    ensures SkipWs(SkipWs(s)) == SkipWs(s)
  {
    var ws := Skipped(s);
  }

  lemma SkipFirst(s: string)
    ensures ParseItems(SkipWs(s)) == ParseItems(s)
  {
    SkipTwice(s);
  }

  lemma ItemsStart(items: seq<Item>, rest: string)
    requires items != [] && ItemsOk(items)
    ensures var t := SkipWs(ItemsThen(items, rest)); t != [] && t[0] == '"'
  {
    var i := items[0];
    assert ItemOk(i);
    var after := i.after + (if |items| == 1 then [']'] + rest else [','] + ItemsThen(items[1..], rest));
    SkipOver(i.before, StringThen(i.text, after));
  }

  lemma ArrayComplete(items: seq<Item>, rest: string)
    requires items != [] && ItemsOk(items)
    ensures ParseStringArray(['['] + ItemsThen(items, rest)) == Some((ItemValues(items), rest))
  {
    var body := ItemsThen(items, rest);
    assert (['['] + body)[1..] == body;
    ItemsStart(items, rest);
    SkipFirst(body);
    ItemsComplete(items, rest);
    hide ItemsThen, ParseItems, SkipWs;
  }

  lemma ValueComplete(key: string, p: Partial, v: Value, rest: string)
    requires ValueOk(v) && AssignNamed(key, p, v).Some?
    ensures ParseValue(key, p, ValueThen(v, rest)) == Some((AssignNamed(key, p, v).value, rest))
    ensures StartsSolid(ValueThen(v, rest))
  {
    hide ParseString, ParseBool, ParseStringArray, ItemsThen, ItemValues, Meaning;
    match v {
      case Str(text) => StringComplete(text, rest);
      case Bool(b) => BoolComplete(b, rest);
      case NoItems(inside) => NoItemsComplete(inside, rest);
      case Items(items) => ArrayComplete(items, rest);
    }
  }

  lemma ArraySound(s: string) returns (v: Value)
    requires ParseStringArray(s).Some?
    ensures ValueOk(v) && s == ValueThen(v, ParseStringArray(s).value.1)
    ensures match v
      case NoItems(_) => ParseStringArray(s).value.0 == []
      case Items(items) => ParseStringArray(s).value.0 == ItemValues(items)
      case _ => false
  {
    hide ParseItems, SkipWs, ItemsThen, ItemValues;
    var s1 := s[1..];
    assert s == ['['] + s1;
    var ws := Skipped(s1);
    var s2 := SkipWs(s1);
    if s2 != [] && s2[0] == ']' {
      v := NoItems(ws);
      assert s2 == [']'] + s2[1..];
    } else {
      SkipFirst(s1);
      var items := ItemsSound(s1);
      v := Items(items);
    }
  }

  lemma BoolSound(s: string)
    requires ParseBool(s).Some?
    ensures s == (if ParseBool(s).value.0 then "true" else "false") + ParseBool(s).value.1
  {
  }

  lemma ValueSound(key: string, p: Partial, s: string) returns (v: Value)
    requires ParseValue(key, p, s).Some?
    ensures ValueOk(v) && s == ValueThen(v, ParseValue(key, p, s).value.1)
    ensures AssignNamed(key, p, v) == Some(ParseValue(key, p, s).value.0)
  {
    hide ParseString, ParseBool, ParseStringArray, ItemsThen, ItemValues, Meaning;
    if key == "features" {
      v := ArraySound(s);
    } else if key == "dirty" {
      BoolSound(s);
      v := Bool(ParseBool(s).value.0);
    } else {
      var text := StringSound(s);
      v := Str(text);
    }
  }

  // ----- members

  datatype Member = Member(
    before: string, key: seq<Piece>, afterKey: string, beforeValue: string, value: Value, after: string)

  predicate MemberOk(m: Member) {
    && AllWs(m.before) && PiecesOk(m.key) && AllWs(m.afterKey) && AllWs(m.beforeValue)
    && ValueOk(m.value) && AllWs(m.after)
  }

  predicate MembersOk(ms: seq<Member>) { forall i :: 0 <= i < |ms| ==> MemberOk(ms[i]) }

  function MemberThen(m: Member, rest: string): string
    requires MemberOk(m)
  {
    m.before + StringThen(m.key, m.afterKey + ([':'] + (m.beforeValue + ValueThen(m.value, m.after + rest))))
  }

  function MembersThen(ms: seq<Member>, rest: string): string
    requires ms != [] && MembersOk(ms)
  {
    MemberThen(ms[0], if |ms| == 1 then ['}'] + rest else [','] + MembersThen(ms[1..], rest))
  }

  function AssignMember(p: Partial, m: Member): Option<Partial>
    requires MemberOk(m)
  {
    AssignNamed(Meaning(m.key), p, m.value)
  }

  function Fill(p: Partial, ms: seq<Member>): Option<Partial>
    requires MembersOk(ms)
    decreases |ms|
  {
    if ms == [] then Some(p)
    else
      var p' :- AssignMember(p, ms[0]);
      Fill(p', ms[1..])
  }

  lemma MemberComplete(p: Partial, m: Member, rest: string)
    requires MemberOk(m) && AssignMember(p, m).Some? && StartsSolid(rest)
    ensures ParseMember(p, MemberThen(m, rest)) == Some((AssignMember(p, m).value, rest))
  {
    var t3 := m.after + rest;
    var t2 := m.beforeValue + ValueThen(m.value, t3);
    var t1 := m.afterKey + ([':'] + t2);
    SkipOver(m.before, StringThen(m.key, t1));
    StringComplete(m.key, t1);
    SkipOver(m.afterKey, [':'] + t2);
    assert ([':'] + t2)[1..] == t2;
    ValueComplete(Meaning(m.key), p, m.value, t3);
    SkipOver(m.beforeValue, ValueThen(m.value, t3));
    SkipOver(m.after, rest);
    hide SkipWs, ParseString, ParseValue, StringThen, ValueThen, Meaning, AssignNamed;
  }

  lemma {:induction false} MembersComplete(p: Partial, ms: seq<Member>, rest: string)
    requires ms != [] && MembersOk(ms) && Fill(p, ms).Some?
    ensures ParseMembers(p, MembersThen(ms, rest)) == Some((Fill(p, ms).value, rest))
    decreases |ms|
  {
    hide ParseMember, MemberThen, AssignMember;
    assert MemberOk(ms[0]);
    if |ms| == 1 {
      MemberComplete(p, ms[0], ['}'] + rest);
      assert (['}'] + rest)[1..] == rest;
      assert ms[1..] == [];
    } else {
      var more := MembersThen(ms[1..], rest);
      MemberComplete(p, ms[0], [','] + more);
      assert ([','] + more)[1..] == more;
      MembersComplete(AssignMember(p, ms[0]).value, ms[1..], rest);
    }
  }

  lemma MemberSound(p: Partial, s: string) returns (m: Member)
    requires ParseMember(p, s).Some?
    ensures MemberOk(m) && s == MemberThen(m, ParseMember(p, s).value.1)
    ensures AssignMember(p, m) == Some(ParseMember(p, s).value.0)
  {
    hide SkipWs, ParseString, ParseValue, StringThen, ValueThen, Meaning, AssignNamed;
    var before := Skipped(s);
    var key := StringSound(SkipWs(s));
    var s1 := ParseString(SkipWs(s)).value.1;
    var afterKey := Skipped(s1);
    var t := SkipWs(s1);
    assert t == [':'] + t[1..];
    var s2 := t[1..];
    var beforeValue := Skipped(s2);
    var value := ValueSound(Meaning(key), p, SkipWs(s2));
    var s3 := ParseValue(Meaning(key), p, SkipWs(s2)).value.1;
    var after := Skipped(s3);
    m := Member(before, key, afterKey, beforeValue, value, after);
  }

  lemma {:induction false} MembersSound(p: Partial, s: string) returns (ms: seq<Member>)
    requires ParseMembers(p, s).Some?
    ensures ms != [] && MembersOk(ms) && s == MembersThen(ms, ParseMembers(p, s).value.1)
    ensures Fill(p, ms) == Some(ParseMembers(p, s).value.0)
    decreases |s|
  {
    hide ParseMember, MemberThen, AssignMember, MemberOk;
    var m := MemberSound(p, s);
    var (p', s1) := ParseMember(p, s).value;
    assert s1 == [s1[0]] + s1[1..];
    if s1[0] == ',' {
      var more := MembersSound(p', s1[1..]);
      ms := [m] + more;
      assert ms[0] == m && ms[1..] == more;
      assert s1 == [','] + MembersThen(more, ParseMembers(p, s).value.1);
    } else {
      ms := [m];
      assert ms[0] == m && ms[1..] == [];
      assert s1 == ['}'] + ParseMembers(p, s).value.1;
    }
  }

  // ----- documents

  datatype Document = Document(before: string, members: seq<Member>, after: string)

  predicate DocumentOk(d: Document) {
    AllWs(d.before) && d.members != [] && MembersOk(d.members) && AllWs(d.after)
  }

  function Print(d: Document): string
    requires DocumentOk(d)
  {
    d.before + (['{'] + MembersThen(d.members, d.after))
  }

  /** The stamp a document stands for, if its keys are the six known ones, once each. */
  function Stamp(d: Document): Option<RawStamp>
    requires DocumentOk(d)
  {
    var p :- Fill(NOTHING, d.members);
    Complete(p)
  }

  lemma MembersStart(ms: seq<Member>, rest: string)
    requires ms != [] && MembersOk(ms)
    ensures var t := SkipWs(MembersThen(ms, rest)); t != [] && t[0] == '"'
  {
    var m := ms[0];
    assert MemberOk(m);
    var end := if |ms| == 1 then ['}'] + rest else [','] + MembersThen(ms[1..], rest);
    SkipOver(m.before, StringThen(m.key, m.afterKey + ([':'] + (m.beforeValue + ValueThen(m.value, m.after + end)))));
  }

  lemma SkipFirstMember(p: Partial, s: string)
    ensures ParseMembers(p, SkipWs(s)) == ParseMembers(p, s)
  {
    SkipTwice(s);
  }

  lemma SkipAll(ws: string)
    requires AllWs(ws)
    ensures SkipWs(ws) == []
  {
    assert ws + [] == ws;
    SkipOver(ws, []);
  }

  lemma DocumentComplete(d: Document)
    requires DocumentOk(d) && Stamp(d).Some?
    ensures ParseStamp(Print(d)) == Stamp(d)
  {
    hide SkipWs, ParseMembers, MembersThen, Fill, Complete;
    var body := MembersThen(d.members, d.after);
    SkipOver(d.before, ['{'] + body);
    assert (['{'] + body)[1..] == body;
    MembersStart(d.members, d.after);
    SkipFirstMember(NOTHING, body);
    MembersComplete(NOTHING, d.members, d.after);
    SkipAll(d.after);
  }

  lemma DocumentSound(text: string) returns (d: Document)
    requires ParseStamp(text).Some?
    ensures DocumentOk(d) && Print(d) == text && Stamp(d) == ParseStamp(text)
  {
    hide SkipWs, ParseMembers, MembersThen, Fill;
    var before := Skipped(text);
    var t := SkipWs(text);
    assert t == ['{'] + t[1..];
    var s1 := t[1..];
    SkipFirstMember(NOTHING, s1);
    var members := MembersSound(NOTHING, s1);
    var after := ParseMembers(NOTHING, s1).value.1;
    var ws := Skipped(after);
    assert ws + [] == ws;
    d := Document(before, members, after);
  }

  /** The parser accepts a text, as a given stamp, exactly when the text is some printing of a
      document for that stamp: any member order, any white space between tokens, any escaping. */
  lemma AcceptsExactly(text: string, stamp: RawStamp)
    ensures ParseStamp(text) == Some(stamp)
       <==> exists d :: DocumentOk(d) && Print(d) == text && Stamp(d) == Some(stamp)
  {
    hide ParseStamp, Print, Stamp, DocumentOk;
    if ParseStamp(text) == Some(stamp) {
      var d := DocumentSound(text);
    }
    forall d | DocumentOk(d) && Print(d) == text && Stamp(d) == Some(stamp)
      ensures ParseStamp(text) == Some(stamp)
    {
      DocumentComplete(d);
    }
  }

  // ----- the six keys

  function MemberKey(m: Member): Option<Key>
    requires MemberOk(m)
  {
    KeyOf(Meaning(m.key))
  }

  function Bit(b: bool): nat { if b then 1 else 0 }

  /** How often a key has been recorded: never or once. */
  function Has(p: Partial, k: Key): nat {
    match k
    case Name => Bit(p.name.Some?)
    case Version => Bit(p.version.Some?)
    case GitSha => Bit(p.gitSha.Some?)
    case Dirty => Bit(p.dirty.Some?)
    case Profile => Bit(p.profile.Some?)
    case Features => Bit(p.features.Some?)
  }

  function Occurs(ms: seq<Member>, k: Key): nat
    requires MembersOk(ms)
  {
    if ms == [] then 0 else Bit(MemberKey(ms[0]) == Some(k)) + Occurs(ms[1..], k)
  }

  /** Each of the six keys once, and no other key. */
  predicate SixKeysOnce(ms: seq<Member>)
    requires MembersOk(ms)
  {
    && (forall i :: 0 <= i < |ms| ==> MemberKey(ms[i]).Some?)
    && (forall k :: Occurs(ms, k) == 1)
  }

  lemma AssignHas(key: Key, p: Partial, v: Value, k: Key)
    requires ValueOk(v) && Assign(key, p, v).Some?
    ensures Has(Assign(key, p, v).value, k) == Has(p, k) + Bit(key == k)
  {
    hide Meaning, ItemValues;
  }

  lemma {:induction false} FillHas(p: Partial, ms: seq<Member>, k: Key)
    requires MembersOk(ms) && Fill(p, ms).Some?
    ensures Has(Fill(p, ms).value, k) == Has(p, k) + Occurs(ms, k)
    ensures forall i :: 0 <= i < |ms| ==> MemberKey(ms[i]).Some?
    decreases |ms|
  {
    if ms != [] {
      assert MemberOk(ms[0]);
      AssignHas(MemberKey(ms[0]).value, p, ms[0].value, k);
      hide Has, Assign, Meaning, KeyOf;
      FillHas(AssignMember(p, ms[0]).value, ms[1..], k);
    }
  }

  lemma CompleteHas(p: Partial)
    ensures Complete(p).Some? <==> forall k :: Has(p, k) == 1
  {
    if forall k :: Has(p, k) == 1 {
      assert Has(p, Name) == Has(p, Version) == Has(p, GitSha) == 1;
      assert Has(p, Dirty) == Has(p, Profile) == Has(p, Features) == 1;
    }
  }

  lemma CompleteKeys(ms: seq<Member>)
    requires MembersOk(ms) && Fill(NOTHING, ms).Some? && Complete(Fill(NOTHING, ms).value).Some?
    ensures SixKeysOnce(ms)
  {
    hide Complete, Fill, Occurs, MembersOk;
    CompleteHas(Fill(NOTHING, ms).value);
    FillHas(NOTHING, ms, Name);
    forall k: Key
      ensures Occurs(ms, k) == 1
    {
      FillHas(NOTHING, ms, k);
    }
  }

  /** An accepted text has each of the six keys exactly once and no other; a duplicate, a missing or
      an unknown key is refused. */
  lemma AcceptedKeys(text: string) returns (d: Document)
    requires ParseStamp(text).Some?
    ensures DocumentOk(d) && Print(d) == text && SixKeysOnce(d.members)
  {
    hide ParseStamp, Print, Complete, Fill, SixKeysOnce;
    d := DocumentSound(text);
    CompleteKeys(d.members);
  }

  // ----- every stamp can be written, in every way

  /** The value is the stamp's own value for the key. */
  predicate Gives(key: Key, v: Value, stamp: RawStamp)
    requires ValueOk(v)
  {
    match (key, v)
    case (Name, Str(text)) => Meaning(text) == stamp.name
    case (Version, Str(text)) => Meaning(text) == stamp.version
    case (GitSha, Str(text)) => Meaning(text) == stamp.gitSha
    case (Profile, Str(text)) => Meaning(text) == stamp.profile
    case (Dirty, Bool(b)) => b == stamp.dirty
    case (Features, NoItems(_)) => stamp.features == []
    case (Features, Items(items)) => stamp.features == ItemValues(items)
    case _ => false
  }

  predicate MemberGives(m: Member, stamp: RawStamp)
    requires MemberOk(m)
  {
    MemberKey(m).Some? && Gives(MemberKey(m).value, m.value, stamp)
  }

  predicate Agrees(p: Partial, stamp: RawStamp) {
    && (p.name.Some? ==> p.name.value == stamp.name)
    && (p.version.Some? ==> p.version.value == stamp.version)
    && (p.gitSha.Some? ==> p.gitSha.value == stamp.gitSha)
    && (p.dirty.Some? ==> p.dirty.value == stamp.dirty)
    && (p.profile.Some? ==> p.profile.value == stamp.profile)
    && (p.features.Some? ==> p.features.value == stamp.features)
  }

  lemma AssignGives(key: Key, p: Partial, v: Value, stamp: RawStamp)
    requires ValueOk(v) && Gives(key, v, stamp) && Agrees(p, stamp) && Has(p, key) == 0
    ensures Assign(key, p, v).Some? && Agrees(Assign(key, p, v).value, stamp)
  {
    hide Meaning, ItemValues;
  }

  lemma {:induction false} FillGives(p: Partial, ms: seq<Member>, stamp: RawStamp)
    requires MembersOk(ms) && Agrees(p, stamp)
    requires forall i :: 0 <= i < |ms| ==> MemberGives(ms[i], stamp)
    requires forall k :: Has(p, k) + Occurs(ms, k) <= 1
    ensures Fill(p, ms).Some? && Agrees(Fill(p, ms).value, stamp)
    decreases |ms|
  {
    if ms != [] {
      hide Has, Agrees, Gives, Meaning, Assign, KeyOf;
      assert MemberOk(ms[0]) && MemberGives(ms[0], stamp);
      var key := MemberKey(ms[0]).value;
      assert Has(p, key) + Occurs(ms, key) <= 1;
      AssignGives(key, p, ms[0].value, stamp);
      var p' := AssignMember(p, ms[0]).value;
      forall k: Key
        ensures Has(p', k) + Occurs(ms[1..], k) <= 1
      {
        AssignHas(key, p, ms[0].value, k);
        assert Has(p, k) + Occurs(ms, k) <= 1;
      }
      FillGives(p', ms[1..], stamp);
    }
  }

  lemma AgreesComplete(p: Partial, stamp: RawStamp)
    requires Agrees(p, stamp) && Complete(p).Some?
    ensures Complete(p) == Some(stamp)
  {
  }

  /** Parsing inverts every printing of every stamp: six members in any order, each giving the stamp's
      value for its key, with any white space and any escaping. */
  lemma ParseInvertsPrint(d: Document, stamp: RawStamp)
    requires DocumentOk(d) && SixKeysOnce(d.members)
    requires forall i :: 0 <= i < |d.members| ==> MemberGives(d.members[i], stamp)
    ensures ParseStamp(Print(d)) == Some(stamp)
  {
    hide Print, ParseStamp, Fill, Occurs, Complete, MemberGives, MembersThen;
    FillGives(NOTHING, d.members, stamp);
    var p := Fill(NOTHING, d.members).value;
    forall k: Key
      ensures Has(p, k) == 1
    {
      FillHas(NOTHING, d.members, k);
    }
    CompleteHas(p);
    AgreesComplete(p, stamp);
    DocumentComplete(d);
  }

  /** Some spelling of each character: itself where that is allowed, otherwise an escape. */
  function Spell(c: char): Piece {
    if c == '"' || c == '\\' then Short(c)
    else if c == '\n' then Short('n')
    else if c == '\r' then Short('r')
    else if c == '\t' then Short('t')
    else if c < ' ' then Hex(['0', '0', if (c as int) < 16 then '0' else '1', LowNibble((c as int) % 16)])
    else Raw(c)
  }

  function LowNibble(n: nat): char
    requires n < 16
  {
    if n < 10 then '0' + n as char else 'a' + (n - 10) as char
  }

  lemma HexSnoc(h: string, c: char)
    ensures HexDigits(h + [c]) == match (HexDigits(h), HexDigit(c))
      case (Some(n), Some(d)) => Some(16 * n + d)
      case _ => None
  {
    assert (h + [c])[..|h|] == h;
  }

  lemma LowNibbleMeans(n: nat)
    requires n < 16
    ensures HexDigit(LowNibble(n)) == Some(n)
  {
  }

  /** Two zeros and two digits. */
  lemma FourDigits(a: char, b: char)
    requires HexDigit(a).Some? && HexDigit(b).Some?
    ensures HexDigits(['0', '0', a, b]) == Some(16 * HexDigit(a).value + HexDigit(b).value)
  {
    assert HexDigit('0') == Some(0) && HexDigits("") == Some(0);
    hide HexDigits, HexDigit;
    HexSnoc("", '0');
    HexSnoc("" + ['0'], '0');
    HexSnoc("" + ['0'] + ['0'], a);
    HexSnoc("" + ['0'] + ['0'] + [a], b);
    assert "" + ['0'] + ['0'] + [a] + [b] == ['0', '0', a, b];
  }

  lemma ControlSpelled(c: char)
    requires c < ' '
    ensures var high, low := if (c as int) < 16 then '0' else '1', LowNibble((c as int) % 16);
      HexDigits(['0', '0', high, low]) == Some(c as int)
  {
    var n := c as int;
    LowNibbleMeans(n % 16);
    FourDigits(if n < 16 then '0' else '1', LowNibble(n % 16));
    hide HexDigits, LowNibble;
  }

  lemma SpellMeans(c: char)
    ensures PieceOk(Spell(c)) && PieceChar(Spell(c)) == c
  {
    if c != '"' && c != '\\' && c < ' ' { ControlSpelled(c); }
    hide HexDigits, LowNibble;
  }

  /** Every string has a spelling, so every stamp has a printing. */
  lemma {:induction false} EveryStringHasASpelling(v: string) returns (ps: seq<Piece>)
    ensures PiecesOk(ps) && Meaning(ps) == v
  {
    if v == [] {
      ps := [];
    } else {
      var rest := EveryStringHasASpelling(v[1..]);
      SpellMeans(v[0]);
      ps := [Spell(v[0])] + rest;
      assert ps[1..] == rest;
    }
  }

  // ----- where the escapes differ from section 7 of RFC 8259

  /** A backslash-u escape is accepted exactly when its four characters are hexadecimal digits, or a
      plus sign and three of them, and do not name a surrogate. Surrogate pairs are refused. */
  lemma UnicodeEscapes(h: string, s: string)
    requires |h| == 4
    ensures Body(['\\', 'u'] + h + s).Some?
       <==> FromStrRadix16(h).Some? && IsScalar(FromStrRadix16(h).value) && Body(s).Some?
    ensures FromStrRadix16(h).Some? <==> (h[0] == '+' || HexDigit(h[0]).Some?) && HexDigits(h[1..]).Some?
  {
    var t := ['\\', 'u'] + h + s;
    assert t[2..6] == h && t[6..] == s;
    LeadingDigit(h);
  }

  lemma {:induction false} LeadingDigit(h: string)
    requires h != []
    ensures HexDigits(h).Some? <==> HexDigit(h[0]).Some? && HexDigits(h[1..]).Some?
  {
    var n := |h| - 1;
    if n == 0 {
      assert h[..0] == [] && h[1..] == [];
    } else {
      LeadingDigit(h[..n]);
      assert h[..n][1..] == h[1..][..n - 1];
    }
  }

  /** A piece as section 7 of RFC 8259 has it: a character that needs no escape, one of the eight short
      escapes, or four hexadecimal digits. */
  predicate RfcPiece(p: Piece) {
    match p
    case Raw(c) => c != '"' && c != '\\' && c >= ' '
    case Short(e) => e in "\"\\/bfnrt"
    case Hex(h) => |h| == 4 && forall i :: 0 <= i < |h| ==> HexDigit(h[i]).Some?
  }

  /** So every character has such a spelling. */
  lemma SpellIsRfc(c: char)
    ensures RfcPiece(Spell(c))
  {
    if Spell(c).Hex? { LowNibbleMeans((c as int) % 16); }
    hide LowNibble;
  }

  predicate RfcPieces(ps: seq<Piece>) { forall i :: 0 <= i < |ps| ==> RfcPiece(ps[i]) }

  /** One half of a surrogate pair. */
  predicate NamesSurrogate(p: Piece) {
    p.Hex? && HexDigits(p.h).Some? && 0xD800 <= HexDigits(p.h).value < 0xE000
  }

  lemma {:induction false} HexValue(h: string)
    requires forall i :: 0 <= i < |h| ==> HexDigit(h[i]).Some?
    ensures HexDigits(h).Some?
    ensures |h| == 4 ==> HexDigits(h).value < 0x10000
    ensures |h| == 3 ==> HexDigits(h).value < 0x1000
    ensures |h| == 2 ==> HexDigits(h).value < 0x100
    ensures |h| == 1 ==> HexDigits(h).value < 0x10
  {
    if h != [] { HexValue(h[..|h| - 1]); }
  }

  /** The parser takes every such piece that does not name a surrogate. */
  lemma RfcPieceOk(p: Piece)
    requires RfcPiece(p)
    ensures PieceOk(p) <==> !NamesSurrogate(p)
  {
    if p.Hex? {
      HexValue(p.h);
      assert HexDigit(p.h[0]).Some?;
      hide HexDigits;
    }
  }

  lemma SurrogateRefused(p: Piece, s: string)
    requires RfcPiece(p) && NamesSurrogate(p)
    ensures Body(PieceThen(p, s)) == None
  {
    RfcPieceOk(p);
    var t := PieceThen(p, s);
    assert t[0] == '\\' && t[1] == 'u' && t[2..6] == p.h;
    hide HexDigits, HexChar;
  }

  // ----- what a piece stands for in the RFC

  /** The code point of a short escape. */
  function RfcShort(e: char): int {
    match e
    case '"' => 0x22
    case '\\' => 0x5C
    case '/' => 0x2F
    case 'b' => 0x08
    case 'f' => 0x0C
    case 'n' => 0x0A
    case 'r' => 0x0D
    case 't' => 0x09
    case _ => 0
  }

  predicate IsHexDigit(c: char, v: nat) {
    v < 16 && (c == "0123456789abcdef"[v] || c == "0123456789ABCDEF"[v])
  }

  lemma HexDigitIs(c: char, v: nat)
    requires HexDigit(c) == Some(v)
    ensures IsHexDigit(c, v)
  {
  }

  /** The character is the one the piece stands for. */
  ghost predicate RfcReads(p: Piece, c: char) {
    match p
    case Raw(r) => c == r
    case Short(e) => c as int == RfcShort(e)
    case Hex(h) =>
      |h| == 4 && exists v: nat, w: nat, x: nat, y: nat ::
        && IsHexDigit(h[0], v) && IsHexDigit(h[1], w) && IsHexDigit(h[2], x) && IsHexDigit(h[3], y)
        && c as int == 4096 * v + 256 * w + 16 * x + y
  }

  lemma PieceReads(p: Piece)
    requires RfcPiece(p) && PieceOk(p)
    ensures RfcReads(p, PieceChar(p))
  {
    if p.Hex? {
      var h := p.h;
      assert h == [h[0], h[1], h[2], h[3]];
      assert HexDigit(h[0]).Some? && HexDigit(h[1]).Some? && HexDigit(h[2]).Some? && HexDigit(h[3]).Some?;
      HexOfFour(h[0], h[1], h[2], h[3]);
      HexDigitIs(h[0], HexDigit(h[0]).value);
      HexDigitIs(h[1], HexDigit(h[1]).value);
      HexDigitIs(h[2], HexDigit(h[2]).value);
      HexDigitIs(h[3], HexDigit(h[3]).value);
      hide HexDigits, IsHexDigit;
    }
  }

  lemma {:induction false} MeaningAt(ps: seq<Piece>, i: nat)
    requires PiecesOk(ps) && i < |ps|
    ensures |Meaning(ps)| == |ps| && Meaning(ps)[i] == PieceChar(ps[i])
  {
    hide PieceChar;
    if i > 0 { MeaningAt(ps[1..], i - 1); } else if |ps| > 1 { MeaningAt(ps[1..], 0); }
  }

  /** A literal spelled as the RFC allows is accepted exactly when no piece of it names a surrogate, and
      then it is read, piece by piece, as what the RFC says it stands for. */
  lemma {:induction false} LiteralAccepted(ps: seq<Piece>, rest: string)
    requires RfcPieces(ps)
    ensures Body(PiecesThen(ps, rest)).Some? <==> forall i :: 0 <= i < |ps| ==> !NamesSurrogate(ps[i])
    ensures Body(PiecesThen(ps, rest)).Some? ==>
      && PiecesOk(ps) && Body(PiecesThen(ps, rest)) == Some((Meaning(ps), rest)) && |Meaning(ps)| == |ps|
      && forall i :: 0 <= i < |ps| ==> RfcReads(ps[i], Meaning(ps)[i])
  {
    hide NamesSurrogate, RfcPiece, PieceOk, RfcReads, PieceChar;
    if exists i :: 0 <= i < |ps| && NamesSurrogate(ps[i]) {
      SurrogateStops(ps, rest);
    } else {
      forall i | 0 <= i < |ps| ensures PieceOk(ps[i]) { RfcPieceOk(ps[i]); }
      BodyComplete(ps, rest);
      assert |Meaning(ps)| == |ps| by { if ps != [] { MeaningAt(ps, 0); } }
      forall i | 0 <= i < |ps| ensures RfcReads(ps[i], Meaning(ps)[i]) {
        MeaningAt(ps, i);
        PieceReads(ps[i]);
      }
    }
  }

  /** The four digits that section 7 of RFC 8259 gives for a short escape. */
  function RfcDigits(e: char): string {
    match e
    case '"' => "0022"
    case '\\' => "005c"
    case '/' => "002f"
    case 'b' => "0008"
    case 'f' => "000c"
    case 'n' => "000a"
    case 'r' => "000d"
    case 't' => "0009"
    case _ => "0000"
  }

  /** A short escape and its four-digit escape are read alike. */
  lemma ShortIsHex(e: char, rest: string)
    requires e in "\"\\/bfnrt"
    ensures Body(['\\', e] + rest) == Body(['\\', 'u'] + RfcDigits(e) + rest)
  {
    var h := RfcDigits(e);
    assert h == ['0', '0', h[2], h[3]] && HexDigit(h[2]).Some? && HexDigit(h[3]).Some?;
    FourDigits(h[2], h[3]);
    assert HexChar(h) == ShortEscape(e) by { hide HexDigits; }
    hide HexDigits, RfcDigits;
    BodyOfPiece(Short(e), rest);
    BodyOfPiece(Hex(h), rest);
    hide Body, ShortEscape, HexChar;
  }

  /** White space is what section 2 of RFC 8259 allows: space, tab, line feed and carriage return. */
  lemma WhiteSpaceIs(c: char)
    ensures IsWs(c) <==> c as int == 0x20 || c as int == 0x09 || c as int == 0x0A || c as int == 0x0D
  {
  }

  lemma {:induction false} SurrogateStops(ps: seq<Piece>, rest: string)
    requires RfcPieces(ps) && exists i :: 0 <= i < |ps| && NamesSurrogate(ps[i])
    ensures Body(PiecesThen(ps, rest)) == None
  {
    hide NamesSurrogate, RfcPiece, PieceThen, Body, PieceOk;
    if NamesSurrogate(ps[0]) {
      SurrogateRefused(ps[0], PiecesThen(ps[1..], rest));
    } else {
      var i :| 0 <= i < |ps| && NamesSurrogate(ps[i]);
      assert ps[1..][i - 1] == ps[i];
      RfcPieceOk(ps[0]);
      SurrogateStops(ps[1..], rest);
      BodyOfPiece(ps[0], PiecesThen(ps[1..], rest));
    }
  }

  lemma HexOfFour(a: char, b: char, c: char, d: char)
    requires HexDigit(a).Some? && HexDigit(b).Some? && HexDigit(c).Some? && HexDigit(d).Some?
    ensures HexDigits([a, b, c, d]) == Some(((HexDigit(a).value * 16 + HexDigit(b).value) * 16 + HexDigit(c).value) * 16
                                            + HexDigit(d).value)
  {
    assert HexDigits("") == Some(0);
    hide HexDigits, HexDigit;
    HexSnoc("", a);
    HexSnoc("" + [a], b);
    HexSnoc("" + [a] + [b], c);
    HexSnoc("" + [a] + [b] + [c], d);
    assert "" + [a] + [b] + [c] + [d] == [a, b, c, d];
  }

  /** A surrogate pair, which the RFC reads as one character, is refused. */
  lemma SurrogatePairRefused(rest: string)
    ensures var pair := [Hex("D83D"), Hex("DE00")];
      RfcPieces(pair) && ParseString(StringThen(pair, rest)) == None
  {
    var pair := [Hex("D83D"), Hex("DE00")];
    HexOfFour('D', '8', '3', 'D');
    assert "D83D" == ['D', '8', '3', 'D'];
    assert NamesSurrogate(pair[0]) && RfcPiece(pair[0]) && RfcPiece(pair[1]);
    SurrogateStops(pair, rest);
    assert StringThen(pair, rest)[1..] == PiecesThen(pair, rest);
    hide PiecesThen, Body;
  }

  /** Accepted here though not JSON: backslash-u, plus, 041. */
  lemma PlusSignIsAccepted()
    ensures HexChar("+041") == Some('A')
  {
    var h := "+041";
    assert h[1..] == "041";
    assert "041"[..2] == "04" && "041"[..2][..1] == "0" && "041"[..2][..1][..0] == "";
    assert HexDigits("0") == Some(0);
    assert HexDigits("04") == Some(4);
    assert HexDigits("041") == Some(65);
  }
}
