/** The one-pass guard on YAML flow nesting, which runs before the parser. */
module NestingScan {
  import opened Arith

  function Weight(c: char): int {
    if c == '[' || c == '{' then 1 else if c == ']' || c == '}' then -1 else 0
  }

  /** Opening minus closing brackets. */
  function Net(s: string): int {
    if s == [] then 0 else Net(s[..|s| - 1]) + Weight(s[|s| - 1])
  }

  /** r is the largest net over all contiguous pieces of the text, the empty piece included. */
  ghost predicate IsLargestRise(text: string, r: int) {
    && (forall i, j :: 0 <= i <= j <= |text| ==> Net(text[i..j]) <= r)
    && (exists i, j :: 0 <= i <= j <= |text| && Net(text[i..j]) == r)
  }

  ghost predicate IsLargestSuffix(text: string, d: int) {
    && (forall i :: 0 <= i <= |text| ==> Net(text[i..]) <= d)
    && (exists i :: 0 <= i <= |text| && Net(text[i..]) == d)
  }

  /** The scan as a fold over the text: current depth and deepest depth. */
  function Scan(text: string): (r: (int, int)) {
    if text == [] then (0, 0)
    else
      var (depth, deepest) := Scan(text[..|text| - 1]);
      Advance(depth, deepest, text[|text| - 1])
  }

  function Advance(depth: int, deepest: int, c: char): (int, int) {
    if Weight(c) == 1 then (depth + 1, Max(deepest, depth + 1))
    else if Weight(c) == -1 then (Max(depth - 1, 0), deepest)
    else (depth, deepest)
  }

  method MaxFlowNestingDepth(text: string) returns (maxDepth: int)
    ensures maxDepth == Scan(text).1
    ensures IsLargestRise(text, maxDepth)
  {
    var depth := 0;
    maxDepth := 0;
    for k := 0 to |text|
      invariant (depth, maxDepth) == Scan(text[..k])
    {
      var c := text[k];
      assert text[..k + 1][..k] == text[..k];
      if c == '[' || c == '{' {
        depth := depth + 1;
        maxDepth := Max(maxDepth, depth);
      } else if c == ']' || c == '}' {
        depth := Max(depth - 1, 0);
      }
    }
    assert text[..|text|] == text;
    ScanIsLargest(text);
  }

  lemma NetSnoc(s: string, c: char)
    ensures Net(s + [c]) == Net(s) + Weight(c)
  {
    assert (s + [c])[..|s|] == s;
  }

  lemma SuffixSnoc(s: string, c: char, d: int)
    requires IsLargestSuffix(s, d)
    ensures IsLargestSuffix(s + [c], Max(d + Weight(c), 0))
  {
    var t := s + [c];
    forall i | 0 <= i <= |t|
      ensures Net(t[i..]) <= Max(d + Weight(c), 0)
    {
      if i <= |s| {
        assert t[i..] == s[i..] + [c];
        NetSnoc(s[i..], c);
      }
    }
    var i :| 0 <= i <= |s| && Net(s[i..]) == d;
    assert t[i..] == s[i..] + [c];
    NetSnoc(s[i..], c);
    assert t[|t|..] == [];
    assert Net(t[i..]) == d + Weight(c) && Net(t[|t|..]) == 0;
  }

  lemma RiseSnoc(s: string, c: char, r: int, d: int)
    requires IsLargestRise(s, r) && IsLargestSuffix(s + [c], d)
    ensures IsLargestRise(s + [c], Max(r, d))
  {
    var t := s + [c];
    forall i, j | 0 <= i <= j <= |t|
      ensures Net(t[i..j]) <= Max(r, d)
    {
      if j <= |s| { assert t[i..j] == s[i..j]; } else { assert t[i..j] == t[i..]; }
    }
    if r >= d {
      var i, j :| 0 <= i <= j <= |s| && Net(s[i..j]) == r;
      assert t[i..j] == s[i..j];
    } else {
      var i :| 0 <= i <= |t| && Net(t[i..]) == d;
      assert t[i..] == t[i..|t|];
    }
  }

  lemma EmptyIsLargest()
    ensures IsLargestSuffix([], 0) && IsLargestRise([], 0)
  {
    var text: string := [];
    assert text[0..] == [] && text[0..0] == [];
    assert Net(text[0..]) == 0 && Net(text[0..0]) == 0;
  }

  /** Saturating at zero restarts the count, so the scan finds the largest rise anywhere. */
  lemma {:induction false} ScanIsLargest(text: string)
    ensures IsLargestSuffix(text, Scan(text).0) && IsLargestRise(text, Scan(text).1)
    ensures 0 <= Scan(text).0 <= Scan(text).1
  {
    hide IsLargestSuffix, IsLargestRise, Net;
    if text == [] {
      EmptyIsLargest();
    } else {
      var s, c := text[..|text| - 1], text[|text| - 1];
      ScanIsLargest(s);
      assert text == s + [c];
      SuffixSnoc(s, c, Scan(s).0);
      RiseSnoc(s, c, Scan(s).1, Scan(text).0);
    }
  }

  // ----- balanced text

  /** A sequence of flow collections and other characters. */
  datatype Flows = End | Plain(c: char, rest: Flows) | Group(curly: bool, body: Flows, rest: Flows)

  predicate PlainOnly(f: Flows) {
    match f
    case End => true
    case Plain(c, rest) => c !in "[]{}" && PlainOnly(rest)
    case Group(_, body, rest) => PlainOnly(body) && PlainOnly(rest)
  }

  function Text(f: Flows): string {
    match f
    case End => ""
    case Plain(c, rest) => [c] + Text(rest)
    case Group(curly, body, rest) =>
      [if curly then '{' else '['] + (Text(body) + ([if curly then '}' else ']'] + Text(rest)))
  }

  function Depth(f: Flows): int {
    match f
    case End => 0
    case Plain(_, rest) => Depth(rest)
    case Group(_, body, rest) => Max(1 + Depth(body), Depth(rest))
  }

  /** The scan continued from a given depth. */
  function ScanFrom(depth: int, deepest: int, text: string): (int, int)
    decreases |text|
  {
    if text == [] then (depth, deepest)
    else
      var (d, m) := Advance(depth, deepest, text[0]);
      ScanFrom(d, m, text[1..])
  }

  lemma {:induction false} ScanFromConcat(d: int, m: int, a: string, b: string)
    ensures ScanFrom(d, m, a + b) == var (d', m') := ScanFrom(d, m, a); ScanFrom(d', m', b)
    decreases |a|
  {
    if a == [] {
      assert a + b == b;
    } else {
      assert (a + b)[1..] == a[1..] + b && (a + b)[0] == a[0];
      var (d1, m1) := Advance(d, m, a[0]);
      ScanFromConcat(d1, m1, a[1..], b);
    }
  }

  lemma {:induction false} ScanIsScanFrom(text: string)
    ensures Scan(text) == ScanFrom(0, 0, text)
  {
    if text != [] {
      var n := |text| - 1;
      ScanIsScanFrom(text[..n]);
      assert text == text[..n] + [text[n]];
      ScanFromConcat(0, 0, text[..n], [text[n]]);
      assert [text[n]][1..] == [];
    }
  }

  lemma ScanFromCons(d: int, m: int, c: char, rest: string)
    ensures ScanFrom(d, m, [c] + rest) == var (d', m') := Advance(d, m, c); ScanFrom(d', m', rest)
  {
    assert ([c] + rest)[1..] == rest;
  }

  /** Scanning the text leaves the depth where it was and has seen the flows' depth on top of it. */
  predicate ScansAs(d: int, m: int, text: string, depth: int) {
    depth >= 0 && ScanFrom(d, m, text) == (d, Max(m, d + depth))
  }

  lemma ScanGroup(d: int, m: int, curly: bool, body: string, rest: string, x: int, y: int)
    requires 0 <= d <= m
    requires ScansAs(d + 1, Max(m, d + 1), body, x) && ScansAs(d, Max(m, d + 1 + x), rest, y)
    ensures ScansAs(d, m, [if curly then '{' else '['] + (body + ([if curly then '}' else ']'] + rest)), Max(1 + x, y))
  {
    hide ScanFrom;
    var open, close := if curly then '{' else '[', if curly then '}' else ']';
    ScanFromCons(d, m, open, body + ([close] + rest));
    ScanFromConcat(d + 1, Max(m, d + 1), body, [close] + rest);
    ScanFromCons(d + 1, Max(m, d + 1 + x), close, rest);
  }

  lemma {:induction false} ScanFlows(d: int, m: int, f: Flows)
    requires PlainOnly(f) && 0 <= d <= m
    ensures ScansAs(d, m, Text(f), Depth(f))
    decreases f
  {
    match f {
      case End =>
      case Plain(c, rest) =>
        ScanFromCons(d, m, c, Text(rest));
        ScanFlows(d, m, rest);
      case Group(curly, body, rest) =>
        ScanFlows(d + 1, Max(m, d + 1), body);
        assert Depth(body) >= 0;
        hide ScansAs;
        ScanFlows(d, Max(m, d + 1 + Depth(body)), rest);
        ScanGroup(d, m, curly, Text(body), Text(rest), Depth(body), Depth(rest));
    }
  }

  /** On balanced text the answer is the nesting depth of the document's collections. */
  lemma BalancedDepth(f: Flows)
    requires PlainOnly(f)
    ensures Scan(Text(f)).1 == Depth(f)
  {
    ScanIsScanFrom(Text(f));
    ScanFlows(0, 0, f);
  }

  // ----- every text without brackets, at every depth

  function Repeat(c: char, n: nat): string { seq(n, _ => c) }

  lemma {:induction false} PlainText(inner: string) returns (f: Flows)
    requires forall i :: 0 <= i < |inner| ==> inner[i] !in "[]{}"
    ensures PlainOnly(f) && Depth(f) == 0 && Text(f) == inner
  {
    if inner == [] {
      f := End;
    } else {
      f := PlainText(inner[1..]);
      f := Plain(inner[0], f);
    }
  }

  function Open(curly: bool): char { if curly then '{' else '[' }

  function Close(curly: bool): char { if curly then '}' else ']' }

  lemma {:induction false} NestedText(curly: bool, n: nat, inner: string) returns (f: Flows)
    requires forall i :: 0 <= i < |inner| ==> inner[i] !in "[]{}"
    ensures PlainOnly(f) && Depth(f) == n && Text(f) == Repeat(Open(curly), n) + inner + Repeat(Close(curly), n)
  {
    if n == 0 {
      f := PlainText(inner);
      assert Repeat(Open(curly), 0) + inner + Repeat(Close(curly), 0) == inner;
    } else {
      var g := NestedText(curly, n - 1, inner);
      f := Group(curly, g, End);
      GroupText(curly, g);
      hide Text, PlainOnly, Depth, Open, Close;
      var open, close := Repeat(Open(curly), n - 1), Repeat(Close(curly), n - 1);
      assert Repeat(Open(curly), n) == [Open(curly)] + open && Repeat(Close(curly), n) == close + [Close(curly)];
      hide Repeat;
      Wrapped(Open(curly), open, inner, close, Close(curly));
    }
  }

  lemma {:induction false} GroupText(curly: bool, g: Flows)
    ensures Text(Group(curly, g, End)) == [Open(curly)] + (Text(g) + [Close(curly)])
    ensures PlainOnly(g) ==> PlainOnly(Group(curly, g, End))
    ensures Depth(Group(curly, g, End)) == Max(1 + Depth(g), 0)
  {
    assert [Close(curly)] + "" == [Close(curly)];
  }

  lemma Wrapped(a: char, open: string, inner: string, close: string, b: char)
    ensures [a] + ((open + inner + close) + [b]) == ([a] + open) + inner + (close + [b])
  {
  }

  /** So n brackets of one kind around any text without brackets are found to be n deep. */
  lemma NestedDepth(curly: bool, n: nat, inner: string)
    requires forall i :: 0 <= i < |inner| ==> inner[i] !in "[]{}"
    ensures Scan(Repeat(Open(curly), n) + inner + Repeat(Close(curly), n)).1 == n
  {
    var f := NestedText(curly, n, inner);
    BalancedDepth(f);
  }
}
