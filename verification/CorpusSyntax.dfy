/** The language of corpus expressions, as a printer of concrete syntax: each printing function puts
    its construct in front of the rest of the expression. */
module CorpusSyntax {
  import opened Decimal
  import opened CorpusGrammar
  import opened Wrappers

  // ----- repetition

  /** A count: digits, leading zeros allowed, after an optional plus sign. */
  datatype Number = Number(plus: bool, digits: string)

  predicate NumberOk(x: Number) { x.digits != [] && AllDigits(x.digits) }

  function NumberText(x: Number): string { if x.plus then ['+'] + x.digits else x.digits }

  /** Nothing, an exact count, or two counts with a comma. */
  datatype Rep = Once | Exactly(count: Number) | Between(least: Number, most: Number)

  predicate RepOk(r: Rep) {
    match r
    case Once => true
    case Exactly(count) => NumberOk(count) && Val(count.digits) <= 16
    case Between(least, most) =>
      NumberOk(least) && NumberOk(most) && Val(least.digits) <= Val(most.digits) <= 16
  }

  function Counts(r: Rep): (nat, nat)
    requires RepOk(r)
  {
    match r
    case Once => (1, 1)
    case Exactly(count) => (Val(count.digits), Val(count.digits))
    case Between(least, most) => (Val(least.digits), Val(most.digits))
  }

  /** The text between the braces. */
  function RepBody(r: Rep): string
    requires !r.Once?
  {
    if r.Exactly? then NumberText(r.count) else NumberText(r.least) + ([','] + NumberText(r.most))
  }

  function RepThen(r: Rep, rest: string): string {
    if r.Once? then rest else ['{'] + (RepBody(r) + (['}'] + rest))
  }

  lemma {:induction false} CutAt(head: string, b: char, tail: string)
    requires b !in head
    ensures Cut(head + ([b] + tail), b) == Some((head, tail))
  {
    var s := head + ([b] + tail);
    if head == [] {
      assert s[1..] == tail;
    } else {
      assert s[1..] == head[1..] + ([b] + tail);
      assert s[0] == head[0] != b;
      CutAt(head[1..], b, tail);
      assert head == [head[0]] + head[1..];
    }
  }

  lemma Regroup(s: string, body: string, b: char, rest: string)
    requires s != [] && s[1..] == body + [b] + rest
    ensures s == [s[0]] + (body + ([b] + rest))
  {
    assert s == [s[0]] + s[1..];
    assert body + [b] + rest == body + ([b] + rest);
  }

  predicate Starts(s: string, b: char) { s != [] && s[0] == b }

  lemma NumberPlain(x: Number)
    requires NumberOk(x)
    ensures Bytes(NumberText(x)) && NumberText(x) != [] && '}' !in NumberText(x) && ',' !in NumberText(x)
  {
    forall i | 0 <= i < |x.digits| ensures IsByte(x.digits[i]) && x.digits[i] != '}' && x.digits[i] != ',' {
      assert IsDigit(x.digits[i]);
    }
  }

  lemma NumberComplete(x: Number)
    requires NumberOk(x) && Val(x.digits) <= MAX_COUNTED_REPEAT
    ensures ParseU32(NumberText(x)) == Some(Val(x.digits))
  {
    assert IsDigit(x.digits[0]);
    assert (['+'] + x.digits)[1..] == x.digits;
  }

  lemma NumberSound(s: string) returns (x: Number)
    requires ParseU32(s).Some?
    ensures NumberOk(x) && NumberText(x) == s && Val(x.digits) == ParseU32(s).value
  {
    if s != [] && s[0] == '+' {
      x := Number(true, s[1..]);
    } else {
      x := Number(false, s);
    }
  }

  lemma CountPlain(r: Rep)
    requires RepOk(r) && !r.Once?
    ensures Bytes(RepBody(r)) && '}' !in RepBody(r)
  {
    hide NumberText, Val;
    match r {
      case Exactly(count) => NumberPlain(count);
      case Between(least, most) =>
        NumberPlain(least);
        NumberPlain(most);
    }
  }

  lemma CountComplete(r: Rep)
    requires RepOk(r) && !r.Once?
    ensures ParseCount(RepBody(r)) == Some(Counts(r))
  {
    match r {
      case Exactly(count) =>
        NumberPlain(count);
        NumberComplete(count);
        CutNone(NumberText(count), ',');
      case Between(least, most) =>
        NumberPlain(least);
        NumberPlain(most);
        NumberComplete(least);
        NumberComplete(most);
        CutAt(NumberText(least), ',', NumberText(most));
    }
    hide Cut, Val, ParseU32, NumberText;
  }

  lemma CountSound(body: string) returns (r: Rep)
    requires ParseCount(body).Some?
    ensures RepOk(r) && !r.Once? && RepBody(r) == body && Counts(r) == ParseCount(body).value
  {
    hide Cut, Val, ParseU32, NumberText, NumberOk;
    if Cut(body, ',').None? {
      var count := NumberSound(body);
      r := Exactly(count);
    } else {
      r := PairSound(body);
    }
  }

  lemma PairSound(body: string) returns (r: Rep)
    requires ParseCount(body).Some? && Cut(body, ',').Some?
    ensures RepOk(r) && !r.Once? && RepBody(r) == body && Counts(r) == ParseCount(body).value
  {
    hide Cut, Val, ParseU32, NumberText, NumberOk;
    var (left, right) := Cut(body, ',').value;
    var least := NumberSound(left);
    var most := NumberSound(right);
    r := Between(least, most);
    assert left + [','] + right == left + ([','] + right);
  }

  lemma RepeatComplete(r: Rep, rest: string)
    requires RepOk(r) && (r.Once? ==> !Starts(rest, '{'))
    ensures ParseRepeat(RepThen(r, rest)) == Some((Counts(r).0, Counts(r).1, rest))
  {
    if !r.Once? {
      var t := RepBody(r) + (['}'] + rest);
      assert (['{'] + t)[1..] == t;
      CountPlain(r);
      CountComplete(r);
      CutAt(RepBody(r), '}', rest);
    }
    hide RepBody, Counts, Cut, ParseCount, RepOk;
  }

  lemma RepeatSound(s: string) returns (r: Rep)
    requires Bytes(s) && ParseRepeat(s).Some?
    ensures RepOk(r) && s == RepThen(r, ParseRepeat(s).value.2)
    ensures Counts(r) == (ParseRepeat(s).value.0, ParseRepeat(s).value.1)
    ensures r.Once? ==> !Starts(s, '{')
  {
    if s == [] || s[0] != '{' {
      r := Once;
    } else {
      var (body, rest) := Cut(s[1..], '}').value;
      r := CountSound(body);
      Regroup(s, body, '}', rest);
      hide ParseCount, Cut, Bytes, RepBody, Counts, RepOk;
    }
  }

  // ----- character classes

  datatype Member = One(b: char) | Range(lo: char, hi: char)

  predicate MemberStart(b: char) { IsPrintable(b) && b != '[' && b != ']' }

  function MembersText(ms: seq<Member>): string {
    if ms == [] then ""
    else match ms[0]
         case One(b) => [b] + MembersText(ms[1..])
         case Range(lo, hi) => [lo, '-', hi] + MembersText(ms[1..])
  }

  /** A lone member is not followed by something that would turn it into a range. */
  predicate MembersOk(ms: seq<Member>) {
    ms != [] ==>
      && MembersOk(ms[1..])
      && match ms[0]
         case One(b) => MemberStart(b) && (var t := MembersText(ms[1..]); |t| >= 2 ==> t[0] != '-')
         case Range(lo, hi) => MemberStart(lo) && lo <= hi && IsByte(hi) && hi != ']'
  }

  function Alphabet(ms: seq<Member>): string
    requires MembersOk(ms)
  {
    if ms == [] then ""
    else match ms[0]
         case One(b) => [b] + Alphabet(ms[1..])
         case Range(lo, hi) => Span(lo, hi) + Alphabet(ms[1..])
  }

  lemma {:induction false} MembersTextBytes(ms: seq<Member>)
    requires MembersOk(ms)
    ensures Bytes(MembersText(ms)) && ']' !in MembersText(ms)
  {
    if ms != [] { MembersTextBytes(ms[1..]); }
  }

  lemma {:induction false} MembersComplete(ms: seq<Member>)
    requires MembersOk(ms)
    ensures Bytes(MembersText(ms)) && ClassMembers(MembersText(ms)) == Some(Alphabet(ms))
  {
    MembersTextBytes(ms);
    if ms != [] {
      MembersComplete(ms[1..]);
      var t := MembersText(ms);
      match ms[0] {
        case One(b) => assert t[1..] == MembersText(ms[1..]);
        case Range(lo, hi) => assert t[3..] == MembersText(ms[1..]);
      }
    }
  }

  lemma {:induction false} MembersSound(body: string) returns (ms: seq<Member>)
    requires Bytes(body) && ']' !in body && ClassMembers(body).Some?
    ensures MembersOk(ms) && MembersText(ms) == body && Alphabet(ms) == ClassMembers(body).value
    decreases |body|
  {
    if body == [] {
      ms := [];
    } else if |body| >= 3 && body[1] == '-' {
      var more := MembersSound(body[3..]);
      ms := [Range(body[0], body[2])] + more;
      assert ms[1..] == more;
      assert body == [body[0], '-', body[2]] + body[3..];
    } else {
      var more := MembersSound(body[1..]);
      ms := [One(body[0])] + more;
      assert ms[1..] == more;
    }
  }

  // ----- alternation

  function BarsThen(choices: seq<string>): string
    requires choices != []
  {
    if |choices| == 1 then choices[0] else choices[0] + (['|'] + BarsThen(choices[1..]))
  }

  lemma {:induction false} CutNone(s: string, b: char)
    ensures Cut(s, b).None? <==> b !in s
  {
    if s != [] {
      CutNone(s[1..], b);
      assert s == [s[0]] + s[1..];
    }
  }

  lemma {:induction false} BarsComplete(choices: seq<string>)
    requires choices != [] && forall i :: 0 <= i < |choices| ==> AllLiteral(choices[i])
    ensures Split(BarsThen(choices), '|') == choices
    decreases |choices|
  {
    assert AllLiteral(choices[0]);
    assert '|' !in choices[0] by { NoReserved(choices[0]); }
    if |choices| == 1 {
      CutNone(choices[0], '|');
    } else {
      CutAt(choices[0], '|', BarsThen(choices[1..]));
      BarsComplete(choices[1..]);
    }
  }

  lemma NoReserved(s: string)
    requires AllLiteral(s)
    ensures forall b :: IsReserved(b) ==> b !in s
  {
  }

  lemma {:induction false} BarsSound(body: string)
    ensures BarsThen(Split(body, '|')) == body
    decreases |body|
  {
    var cut := Cut(body, '|');
    if cut.Some? {
      var (head, tail) := cut.value;
      BarsSound(tail);
      assert Split(body, '|')[1..] == Split(tail, '|');
      assert head + ['|'] + tail == head + (['|'] + tail);
    }
  }

  /** The bytes of an alternation are literal bytes and bars. */
  lemma {:induction false} BarsPlain(choices: seq<string>)
    requires choices != [] && forall i :: 0 <= i < |choices| ==> AllLiteral(choices[i])
    ensures forall b :: b in BarsThen(choices) ==> IsLiteral(b) || b == '|'
    decreases |choices|
  {
    assert AllLiteral(choices[0]);
    if |choices| > 1 { BarsPlain(choices[1..]); }
  }

  // ----- elements

  datatype Syntax =
    | Run(bytes: string, rep: Rep)
    | Set(members: seq<Member>, rep: Rep)
    | Choice(choices: seq<string>)

  predicate SyntaxOk(x: Syntax) {
    match x
    case Run(bytes, rep) => bytes != [] && AllLiteral(bytes) && RepOk(rep)
    case Set(members, rep) =>
      members != [] && MembersOk(members) && !Starts(MembersText(members), '^') && RepOk(rep)
    case Choice(choices) => AreAlternatives(choices)
  }

  function ElemThen(x: Syntax, rest: string): string
    requires SyntaxOk(x)
  {
    match x
    case Run(bytes, rep) => bytes + RepThen(rep, rest)
    case Set(members, rep) => ['['] + (MembersText(members) + ([']'] + RepThen(rep, rest)))
    case Choice(choices) => ['('] + (BarsThen(choices) + ([')'] + rest))
  }

  function Meaning(x: Syntax): Elem
    requires SyntaxOk(x)
  {
    match x
    case Run(bytes, rep) => Literal(bytes, Counts(rep).0, Counts(rep).1)
    case Set(members, rep) => Class(Alphabet(members), Counts(rep).0, Counts(rep).1)
    case Choice(choices) => Alt(choices)
  }

  /** What follows does not extend the element: no repetition where none was printed, and no literal
      byte directly after an unrepeated run. */
  predicate EndsBefore(x: Syntax, rest: string) {
    match x
    case Run(_, rep) => rep.Once? ==> !Starts(rest, '{') && (rest == [] || !IsLiteral(rest[0]))
    case Set(_, rep) => rep.Once? ==> !Starts(rest, '{')
    case Choice(_) => true
  }

  lemma {:induction false} RunAt(bytes: string, rest: string)
    requires AllLiteral(bytes) && (rest == [] || !IsLiteral(rest[0]))
    ensures RunOf(bytes + rest) == (bytes, rest)
  {
    if bytes == [] {
      assert bytes + rest == rest;
    } else {
      assert IsLiteral(bytes[0]);
      assert (bytes + rest)[1..] == bytes[1..] + rest;
      RunAt(bytes[1..], rest);
      assert bytes == [bytes[0]] + bytes[1..];
    }
  }

  lemma RunComplete(x: Syntax, rest: string)
    requires SyntaxOk(x) && x.Run? && EndsBefore(x, rest) && Bytes(ElemThen(x, rest))
    ensures ParseElem(ElemThen(x, rest)) == Some((Meaning(x), rest))
  {
    var t := RepThen(x.rep, rest);
    assert !x.rep.Once? ==> t[0] == '{';
    RunAt(x.bytes, t);
    RepeatComplete(x.rep, rest);
    assert IsLiteral(x.bytes[0]);
    hide RunOf, ParseRepeat, RepThen, Counts;
  }

  lemma SetComplete(x: Syntax, rest: string)
    requires SyntaxOk(x) && x.Set? && EndsBefore(x, rest) && Bytes(ElemThen(x, rest))
    ensures ParseElem(ElemThen(x, rest)) == Some((Meaning(x), rest))
  {
    var body, t := MembersText(x.members), RepThen(x.rep, rest);
    MembersTextBytes(x.members);
    MembersComplete(x.members);
    assert body != [];
    CutAt(body, ']', t);
    assert (['['] + (body + ([']'] + t)))[1..] == body + ([']'] + t);
    RepeatComplete(x.rep, rest);
    hide RunOf, ParseRepeat, RepThen, Counts, MembersText, Alphabet, ClassMembers, MembersOk, Cut;
  }

  lemma ChoiceComplete(x: Syntax, rest: string)
    requires SyntaxOk(x) && x.Choice? && Bytes(ElemThen(x, rest))
    ensures ParseElem(ElemThen(x, rest)) == Some((Meaning(x), rest))
  {
    var body := BarsThen(x.choices);
    BarsPlain(x.choices);
    BarsComplete(x.choices);
    assert ')' !in body && '(' !in body && '[' !in body;
    CutAt(body, ')', rest);
    assert (['('] + (body + ([')'] + rest)))[1..] == body + ([')'] + rest);
    hide RunOf, BarsThen, Split, Cut, AreAlternatives;
  }

  lemma ElemComplete(x: Syntax, rest: string)
    requires SyntaxOk(x) && EndsBefore(x, rest) && Bytes(ElemThen(x, rest))
    ensures ParseElem(ElemThen(x, rest)) == Some((Meaning(x), rest))
  {
    match x {
      case Run(_, _) => RunComplete(x, rest);
      case Set(_, _) => SetComplete(x, rest);
      case Choice(_) => ChoiceComplete(x, rest);
    }
  }

  lemma ElemSound(s: string) returns (x: Syntax)
    requires s != [] && Bytes(s) && ParseElem(s).Some?
    ensures SyntaxOk(x) && EndsBefore(x, ParseElem(s).value.1)
    ensures s == ElemThen(x, ParseElem(s).value.1) && Meaning(x) == ParseElem(s).value.0
  {
    if s[0] == '[' {
      x := SetSound(s);
    } else if s[0] == '(' {
      x := ChoiceSound(s);
    } else {
      x := RunSound(s);
    }
  }

  lemma RunSound(s: string) returns (x: Syntax)
    requires s != [] && Bytes(s) && s[0] != '[' && s[0] != '(' && ParseElem(s).Some?
    ensures SyntaxOk(x) && EndsBefore(x, ParseElem(s).value.1)
    ensures s == ElemThen(x, ParseElem(s).value.1) && Meaning(x) == ParseElem(s).value.0
  {
    var (run, s1) := RunOf(s);
    BytesParts(run, s1);
    var rep := RepeatSound(s1);
    assert run != [] by { assert IsLiteral(s[0]); }
    x := Run(run, rep);
    hide RunOf, ParseRepeat, Counts;
  }

  lemma SetSound(s: string) returns (x: Syntax)
    requires s != [] && Bytes(s) && s[0] == '[' && ParseElem(s).Some?
    ensures SyntaxOk(x) && EndsBefore(x, ParseElem(s).value.1)
    ensures s == ElemThen(x, ParseElem(s).value.1) && Meaning(x) == ParseElem(s).value.0
  {
    var (body, s1) := Cut(s[1..], ']').value;
    CutBytes(s[1..], ']');
    var members := MembersSound(body);
    var rep := RepeatSound(s1);
    x := Set(members, rep);
    Regroup(s, body, ']', s1);
    hide Cut, ParseRepeat, Counts, ClassMembers, Alphabet, MembersOk, Bytes, RepThen;
  }

  lemma ChoiceSound(s: string) returns (x: Syntax)
    requires s != [] && Bytes(s) && s[0] == '(' && ParseElem(s).Some?
    ensures SyntaxOk(x) && EndsBefore(x, ParseElem(s).value.1)
    ensures s == ElemThen(x, ParseElem(s).value.1) && Meaning(x) == ParseElem(s).value.0
  {
    var (body, rest) := Cut(s[1..], ')').value;
    BarsSound(body);
    x := Choice(Split(body, '|'));
    Regroup(s, body, ')', rest);
    hide Cut, Bytes, Split, BarsThen, AreAlternatives;
  }

  // ----- whole expressions

  /** Every element is well formed, and no unrepeated run is directly followed by another run. */
  predicate WellFormed(xs: seq<Syntax>) {
    xs != [] ==>
      && SyntaxOk(xs[0])
      && WellFormed(xs[1..])
      && (|xs| >= 2 && xs[0].Run? && xs[0].rep.Once? ==> !xs[1].Run?)
  }

  function Text(xs: seq<Syntax>): string
    requires WellFormed(xs)
  {
    if xs == [] then "" else ElemThen(xs[0], Text(xs[1..]))
  }

  function Meanings(xs: seq<Syntax>): seq<Elem>
    requires WellFormed(xs)
  {
    if xs == [] then [] else [Meaning(xs[0])] + Meanings(xs[1..])
  }

  lemma TextStart(xs: seq<Syntax>)
    requires WellFormed(xs) && xs != []
    ensures Text(xs) != [] && (IsLiteral(Text(xs)[0]) <==> xs[0].Run?) && Text(xs)[0] != '{'
  {
    match xs[0] {
      case Run(bytes, rep) => assert IsLiteral(bytes[0]) && Text(xs)[0] == bytes[0];
      case Set(_, _) =>
      case Choice(_) =>
    }
  }

  lemma HeadEnds(xs: seq<Syntax>)
    requires WellFormed(xs) && xs != []
    ensures EndsBefore(xs[0], Text(xs[1..]))
  {
    if |xs| >= 2 { TextStart(xs[1..]); }
    hide Text, SyntaxOk;
  }

  lemma RepBytes(rep: Rep, rest: string)
    requires RepOk(rep) && Bytes(rest)
    ensures Bytes(RepThen(rep, rest))
  {
    if !rep.Once? { CountPlain(rep); }
    hide RepBody, RepOk;
  }

  lemma BracketBytes(open: char, body: string, close: char, rest: string)
    requires IsByte(open) && Bytes(body) && IsByte(close) && Bytes(rest)
    ensures Bytes([open] + (body + ([close] + rest)))
  {
  }

  lemma ElemBytes(x: Syntax, rest: string)
    requires SyntaxOk(x) && Bytes(rest)
    ensures Bytes(ElemThen(x, rest))
  {
    match x {
      case Run(bytes, rep) =>
        RepBytes(rep, rest);
        var t := RepThen(rep, rest);
        assert Bytes(bytes) && Bytes(t);
        assert ElemThen(x, rest) == bytes + t;
      case Set(members, rep) =>
        MembersTextBytes(members);
        RepBytes(rep, rest);
        BracketBytes('[', MembersText(members), ']', RepThen(rep, rest));
      case Choice(choices) =>
        BarsPlain(choices);
        var body := BarsThen(choices);
        forall i | 0 <= i < |body| ensures IsByte(body[i]) { assert body[i] in body; }
        BracketBytes('(', body, ')', rest);
    }
  }

  lemma {:induction false} TextBytes(xs: seq<Syntax>)
    requires WellFormed(xs)
    ensures Bytes(Text(xs))
  {
    if xs != [] {
      TextBytes(xs[1..]);
      ElemBytes(xs[0], Text(xs[1..]));
    }
  }

  lemma {:induction false} TextComplete(xs: seq<Syntax>)
    requires WellFormed(xs)
    ensures Bytes(Text(xs)) && ParseElems(Text(xs)) == Some(Meanings(xs))
  {
    TextBytes(xs);
    if xs != [] {
      TextStart(xs);
      HeadEnds(xs);
      ElemComplete(xs[0], Text(xs[1..]));
      TextComplete(xs[1..]);
      hide ParseElem, SyntaxOk, Bytes, EndsBefore, ElemThen, Meaning;
    }
  }

  lemma Cons(x: Syntax, xs: seq<Syntax>)
    requires SyntaxOk(x) && WellFormed(xs) && EndsBefore(x, Text(xs))
    ensures WellFormed([x] + xs)
    ensures Text([x] + xs) == ElemThen(x, Text(xs)) && Meanings([x] + xs) == [Meaning(x)] + Meanings(xs)
  {
    if xs != [] { TextStart(xs); }
    assert ([x] + xs)[1..] == xs;
    hide SyntaxOk, Meaning, ElemThen;
  }

  lemma {:induction false} TextSound(s: string) returns (xs: seq<Syntax>)
    requires Bytes(s) && ParseElems(s).Some?
    ensures WellFormed(xs) && Text(xs) == s && Meanings(xs) == ParseElems(s).value
    decreases |s|
  {
    if s == [] {
      xs := [];
    } else {
      var x := ElemSound(s);
      ElemSuffix(s);
      var more := TextSound(ParseElem(s).value.1);
      Cons(x, more);
      xs := [x] + more;
      hide ParseElem, SyntaxOk, Bytes, EndsBefore, ElemThen, Meaning, WellFormed, Text, Meanings;
    }
  }

  /** The parser accepts exactly the texts of well-formed syntax, and gives each its meaning. */
  lemma AcceptsExactly(s: string, es: seq<Elem>)
    requires Bytes(s)
    ensures ParseElems(s) == Some(es) <==>
            exists xs :: WellFormed(xs) && Text(xs) == s && Meanings(xs) == es
  {
    hide ParseElems, WellFormed, Text, Meanings, Bytes;
    if ParseElems(s) == Some(es) {
      var xs := TextSound(s);
    }
    forall xs | WellFormed(xs) && Text(xs) == s && Meanings(xs) == es ensures ParseElems(s) == Some(es) {
      TextComplete(xs);
    }
  }

  // ----- printing elements

  function Plain(n: nat): Number { Number(false, Dec(n)) }

  /** The shortest way to write two bounds. */
  function Braces(min: nat, max: nat): Rep {
    if min == max then Exactly(Plain(min)) else Between(Plain(min), Plain(max))
  }

  lemma BracesOk(min: nat, max: nat)
    requires min <= max <= MAX_COUNTED_REPEAT
    ensures RepOk(Braces(min, max)) && Counts(Braces(min, max)) == (min, max)
  {
    ValDec(min);
    ValDec(max);
    DecIsDigits(min);
    DecIsDigits(max);
    hide Dec, Val;
  }

  /** A member written as a range of one, so that no neighbour can change its meaning. */
  function Singles(alphabet: string): seq<Member> {
    if alphabet == [] then [] else [Range(alphabet[0], alphabet[0])] + Singles(alphabet[1..])
  }

  lemma {:induction false} SinglesOk(alphabet: string)
    requires forall i :: 0 <= i < |alphabet| ==> MemberStart(alphabet[i])
    ensures MembersOk(Singles(alphabet)) && Alphabet(Singles(alphabet)) == alphabet
  {
    if alphabet != [] {
      SinglesOk(alphabet[1..]);
      assert Singles(alphabet)[1..] == Singles(alphabet[1..]);
      assert Span(alphabet[0], alphabet[0]) == [alphabet[0]];
      assert alphabet == [alphabet[0]] + alphabet[1..];
    }
  }

  /** Elements in normal form: non-empty literal bytes, an alphabet a class can spell one by one, and
      bounds in order. */
  predicate Normal(e: Elem) {
    match e
    case Literal(bytes, min, max) => bytes != [] && AllLiteral(bytes) && min <= max <= MAX_COUNTED_REPEAT
    case Class(alphabet, min, max) =>
      && alphabet != [] && alphabet[0] != '^' && min <= max <= MAX_COUNTED_REPEAT
      && forall i :: 0 <= i < |alphabet| ==> MemberStart(alphabet[i])
    case Alt(choices) => AreAlternatives(choices)
  }

  predicate AllNormal(es: seq<Elem>) { forall i :: 0 <= i < |es| ==> Normal(es[i]) }

  function SyntaxOf(e: Elem): Syntax {
    match e
    case Literal(bytes, min, max) => Run(bytes, Braces(min, max))
    case Class(alphabet, min, max) => Set(Singles(alphabet), Braces(min, max))
    case Alt(choices) => Choice(choices)
  }

  lemma SyntaxOfOk(e: Elem)
    requires Normal(e)
    ensures SyntaxOk(SyntaxOf(e)) && Meaning(SyntaxOf(e)) == e
    ensures forall rest :: EndsBefore(SyntaxOf(e), rest)
  {
    match e {
      case Literal(bytes, min, max) => BracesOk(min, max);
      case Class(alphabet, min, max) =>
        BracesOk(min, max);
        SinglesOk(alphabet);
        assert MembersText(Singles(alphabet))[0] == alphabet[0];
      case Alt(_) =>
    }
    hide RepOk, Counts, AllLiteral, MembersOk, Alphabet, AreAlternatives;
  }

  /** Each element written out with its bounds, one after the other. */
  function PrintElems(es: seq<Elem>): string
    requires AllNormal(es)
  {
    if es == [] then ""
    else
      SyntaxOfOk(es[0]);
      ElemThen(SyntaxOf(es[0]), PrintElems(es[1..]))
  }

  lemma {:induction false} PrintIsText(es: seq<Elem>) returns (xs: seq<Syntax>)
    requires AllNormal(es)
    ensures WellFormed(xs) && Text(xs) == PrintElems(es) && Meanings(xs) == es
  {
    if es == [] {
      xs := [];
    } else {
      SyntaxOfOk(es[0]);
      hide Normal, SyntaxOk, Meaning, EndsBefore, ElemThen, SyntaxOf, WellFormed, Text, Meanings;
      var more := PrintIsText(es[1..]);
      Cons(SyntaxOf(es[0]), more);
      xs := [SyntaxOf(es[0])] + more;
      assert es == [es[0]] + es[1..];
    }
  }

  /** Parsing undoes printing, for every list of elements in normal form. */
  lemma ParseInvertsPrint(es: seq<Elem>)
    requires AllNormal(es)
    ensures Bytes(PrintElems(es)) && ParseElems(PrintElems(es)) == Some(es)
  {
    var xs := PrintIsText(es);
    hide PrintElems, WellFormed, Text, Meanings, ParseElems, Bytes;
    TextComplete(xs);
  }

  /** A single byte is an expression exactly when it is printable and none of the nine reserved ones, and
      then stands for itself once. */
  lemma OneByte(b: char)
    requires b < '\U{100}'
    ensures Bytes([b])
    ensures ParseElems([b]) ==
      if 0x21 <= b as int <= 0x7E && b !in "[](){}|*+" then Some([Literal([b], 1, 1)]) else None
  {
    assert [b][1..] == "" && Cut("", ']') == None && Cut("", ')') == None;
    if IsLiteral(b) {
      assert RunOf("") == ("", "") && [b] + "" == [b];
      assert RunOf([b]) == ([b], "");
      assert ParseElem([b]) == Some((Literal([b], 1, 1), ""));
      var e := Literal([b], 1, 1);
      assert [e] + [] == [e];
    } else {
      assert ParseElem([b]) == None;
    }
  }

  /** Numbers of up to 32 bits are read, larger ones refused. */
  lemma ReadsU32(n: nat)
    ensures ParseU32(Dec(n)) == if n <= 4_294_967_295 then Some(n) else None
  {
    ValDec(n);
    DecIsDigits(n);
    assert IsDigit(Dec(n)[0]);
    hide Dec, Val;
  }
}
