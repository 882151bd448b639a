/** The corpus-expression grammar: literal runs, character classes, counted repetition and one level
    of alternation. Characters stand for the bytes of the expression. */
module CorpusGrammar {
  import opened Arith
  import opened Decimal
  import opened Wrappers

  const MAX_COUNTED_REPEAT: int := 16

  datatype Elem =
    | Literal(bytes: string, min: nat, max: nat)
    | Class(alphabet: string, min: nat, max: nat)
    | Alt(choices: seq<string>)

  predicate IsPrintable(b: char) { '!' <= b <= '~' }

  predicate AllPrintable(s: string) { forall i :: 0 <= i < |s| ==> IsPrintable(s[i]) }

  predicate IsReserved(b: char) { b in "[](){}|*+" }

  predicate IsLiteral(b: char) { IsPrintable(b) && !IsReserved(b) }

  predicate AllLiteral(s: string) { forall i :: 0 <= i < |s| ==> IsLiteral(s[i]) }

  predicate IsByte(b: char) { b < '\U{100}' }

  predicate Bytes(s: string) { forall i :: 0 <= i < |s| ==> IsByte(s[i]) }

  // ----- the parser, on the bytes still to be read

  /** Splits at the first occurrence of a byte. */
  function Cut(s: string, b: char): (r: Option<(string, string)>)
    ensures r.Some? ==> s == r.value.0 + [b] + r.value.1 && b !in r.value.0
  {
    if s == [] then None
    else if s[0] == b then Some(("", s[1..]))
    else
      var (head, tail) :- Cut(s[1..], b);
      Some(([s[0]] + head, tail))
  }

  /** Unsigned 32-bit parsing as the standard library does it: a leading plus sign is skipped. */
  function ParseU32(s: string): Option<nat> {
    var digits := if s != [] && s[0] == '+' then s[1..] else s;
    if digits == [] || !AllDigits(digits) || Val(digits) >= U32_LIMIT then None else Some(Val(digits))
  }

  /** The text between the braces of a repetition. */
  function ParseCount(body: string): Option<(nat, nat)> {
    var (n, m) :- match Cut(body, ',') {
      case Some((left, right)) =>
        (var n :- ParseU32(left);
         if right == [] then None
         else
           var m :- ParseU32(right);
           Some((n, m)))
      case None =>
        (var n :- ParseU32(body);
         Some((n, n)))
    };
    if n > m || m > MAX_COUNTED_REPEAT then None else Some((n, m))
  }

  /** An optional repetition suffix. */
  function ParseRepeat(s: string): (r: Option<(nat, nat, string)>)
    ensures r.Some? ==> |r.value.2| <= |s|
  {
    if s == [] || s[0] != '{' then Some((1, 1, s))
    else
      var (body, rest) :- Cut(s[1..], '}');
      var (n, m) :- ParseCount(body);
      Some((n, m, rest))
  }

  function Span(lo: char, hi: char): string
    requires lo <= hi && IsByte(hi)
  {
    seq((hi as int) - (lo as int) + 1, i requires 0 <= i <= (hi as int) - (lo as int) => ((lo as int) + i) as char)
  }

  function ClassMembers(body: string): Option<string>
    requires Bytes(body)
  {
    if body == [] then Some("")
    else if body[0] == '[' || !IsPrintable(body[0]) then None
    else if |body| >= 3 && body[1] == '-' then
      if body[2] < body[0] then None
      else
        var more :- ClassMembers(body[3..]);
        Some(Span(body[0], body[2]) + more)
    else
      var more :- ClassMembers(body[1..]);
      Some([body[0]] + more)
  }

  function ParseClassBody(body: string): Option<string>
    requires Bytes(body)
  {
    if body == [] || body[0] == '^' then None else ClassMembers(body)
  }

  /** The pieces between occurrences of a byte. */
  function Split(s: string, b: char): (r: seq<string>)
    ensures |r| >= 1
    decreases |s|
  {
    match Cut(s, b)
    case None => [s]
    case Some((head, tail)) => [head] + Split(tail, b)
  }

  predicate IsAlternative(s: string) { s != [] && AllLiteral(s) }

  predicate AreAlternatives(choices: seq<string>) {
    |choices| >= 2 && forall i :: 0 <= i < |choices| ==> IsAlternative(choices[i])
  }

  function ParseAltBody(body: string): Option<seq<string>> {
    var choices := Split(body, '|');
    if AreAlternatives(choices) then Some(choices) else None
  }

  /** The longest literal run at the front. */
  function RunOf(s: string): (r: (string, string))
    ensures s == r.0 + r.1 && AllLiteral(r.0) && (r.1 == [] || !IsLiteral(r.1[0]))
  {
    if s == [] || !IsLiteral(s[0]) then ("", s)
    else
      var (run, rest) := RunOf(s[1..]);
      ([s[0]] + run, rest)
  }

  lemma BytesParts(a: string, b: string)
    requires Bytes(a + b)
    ensures Bytes(a) && Bytes(b)
  {
    forall i | 0 <= i < |a| ensures IsByte(a[i]) { assert (a + b)[i] == a[i]; }
    forall i | 0 <= i < |b| ensures IsByte(b[i]) { assert (a + b)[|a| + i] == b[i]; }
  }

  lemma CutBytes(s: string, b: char)
    requires Bytes(s) && Cut(s, b).Some?
    ensures Bytes(Cut(s, b).value.0) && Bytes(Cut(s, b).value.1)
  {
    var (head, tail) := Cut(s, b).value;
    BytesParts(head + [b], tail);
    BytesParts(head, [b]);
  }

  /** One element and what follows it. */
  function ParseElem(s: string): (r: Option<(Elem, string)>)
    requires s != [] && Bytes(s)
    ensures r.Some? ==> |r.value.1| < |s|
  {
    if s[0] == '[' then
      var (body, s1) :- Cut(s[1..], ']');
      CutBytes(s[1..], ']');
      var alphabet :- ParseClassBody(body);
      var (n, m, rest) :- ParseRepeat(s1);
      Some((Class(alphabet, n, m), rest))
    else if s[0] == '(' then
      var (body, rest) :- Cut(s[1..], ')');
      if '(' in body || '[' in body then None
      else
        var choices :- ParseAltBody(body);
        Some((Alt(choices), rest))
    else if !IsLiteral(s[0]) then None
    else
      var (run, s1) := RunOf(s);
      var (n, m, rest) :- ParseRepeat(s1);
      Some((Literal(run, n, m), rest))
  }

  lemma {:induction false} ElemSuffix(s: string)
    requires s != [] && Bytes(s) && ParseElem(s).Some?
    ensures Bytes(ParseElem(s).value.1)
  {
    if s[0] == '[' {
      CutBytes(s[1..], ']');
      RepeatSuffix(Cut(s[1..], ']').value.1);
    } else if s[0] == '(' {
      CutBytes(s[1..], ')');
    } else {
      var (run, s1) := RunOf(s);
      BytesParts(run, s1);
      RepeatSuffix(s1);
    }
  }

  lemma RepeatSuffix(s: string)
    requires Bytes(s) && ParseRepeat(s).Some?
    ensures Bytes(ParseRepeat(s).value.2)
  {
    if s != [] && s[0] == '{' { CutBytes(s[1..], '}'); }
  }

  function ParseElems(s: string): Option<seq<Elem>>
    requires Bytes(s)
    decreases |s|
  {
    if s == [] then Some([])
    else
      var (e, rest) :- ParseElem(s);
      ElemSuffix(s);
      var es :- ParseElems(rest);
      Some([e] + es)
  }
}
