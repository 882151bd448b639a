/** Decimal rendering as the source's formatting macros do it, and its inverse. */
module Decimal {
  function Pow10(w: nat): (p: nat)
    ensures p > 0
  {
    if w == 0 then 1 else 10 * Pow10(w - 1)
  }

  function Digit(d: nat): char
    requires d < 10
  {
    '0' + d as char
  }

  predicate IsDigit(c: char) { '0' <= c <= '9' }

  predicate AllDigits(s: string) { forall i :: 0 <= i < |s| ==> IsDigit(s[i]) }

  /** Digits of n with no leading zero; zero is a single digit. */
  function Dec(n: nat): string {
    if n < 10 then [Digit(n)] else Dec(n / 10) + [Digit(n % 10)]
  }

  function Zeros(k: nat): string { seq(k, _ => '0') }

  /** Zero padding to a minimum width. */
  function Pad(n: nat, w: nat): string {
    if |Dec(n)| >= w then Dec(n) else Zeros(w - |Dec(n)|) + Dec(n)
  }

  /** The number a digit string denotes. */
  function Val(s: string): nat
    requires AllDigits(s)
  {
    if s == [] then 0 else 10 * Val(s[..|s| - 1]) + (s[|s| - 1] - '0') as nat
  }

  /** Strict lexicographic order on strings. */
  predicate Lex(a: string, b: string) {
    if b == [] then false
    else if a == [] then true
    else a[0] < b[0] || (a[0] == b[0] && Lex(a[1..], b[1..]))
  }

  // ----- Dec and Val

  lemma DecIsDigits(n: nat)
    ensures AllDigits(Dec(n)) && |Dec(n)| >= 1
  {
  }

  lemma ValSnoc(s: string, c: char)
    requires AllDigits(s) && IsDigit(c)
    ensures AllDigits(s + [c]) && Val(s + [c]) == 10 * Val(s) + (c - '0') as nat
  {
    assert (s + [c])[..|s|] == s;
  }

  lemma {:induction false} ValDec(n: nat)
    ensures AllDigits(Dec(n)) && Val(Dec(n)) == n
  {
    if n < 10 {
      ValSnoc([], Digit(n));
      assert [] + [Digit(n)] == [Digit(n)];
    } else {
      ValDec(n / 10);
      ValSnoc(Dec(n / 10), Digit(n % 10));
    }
  }

  lemma {:induction false} OnlyZeros(k: nat)
    ensures AllDigits(Zeros(k)) && Val(Zeros(k)) == 0
  {
    if k > 0 {
      OnlyZeros(k - 1);
      assert Zeros(k) == Zeros(k - 1) + ['0'];
      hide Zeros;
      ValSnoc(Zeros(k - 1), '0');
    }
  }

  lemma {:induction false} ValZeros(k: nat, s: string)
    requires AllDigits(s)
    ensures AllDigits(Zeros(k) + s) && Val(Zeros(k) + s) == Val(s)
  {
    hide Zeros;
    if s == [] {
      assert Zeros(k) + s == Zeros(k);
      OnlyZeros(k);
    } else {
      var t, c := s[..|s| - 1], s[|s| - 1];
      ValZeros(k, t);
      assert s == t + [c];
      assert Zeros(k) + s == (Zeros(k) + t) + [c];
      ValSnoc(t, c);
      ValSnoc(Zeros(k) + t, c);
    }
  }

  lemma ValPad(n: nat, w: nat)
    ensures AllDigits(Pad(n, w)) && Val(Pad(n, w)) == n
  {
    ValDec(n);
    hide Dec, Val, Zeros, AllDigits;
    if |Dec(n)| < w { ValZeros(w - |Dec(n)|, Dec(n)); }
  }

  lemma {:induction false} ValBound(s: string)
    requires AllDigits(s)
    ensures Val(s) < Pow10(|s|)
  {
    if s != [] { ValBound(s[..|s| - 1]); }
  }

  lemma {:induction false} DecLength(n: nat, w: nat)
    requires w >= 1
    ensures n < Pow10(w) <==> |Dec(n)| <= w
  {
    assert Pow10(1) == 10 * Pow10(0);
    if n < 10 {
      if w > 1 { PowMono(1, w); }
    } else {
      DecIsDigits(n / 10);
      if w > 1 { DecLength(n / 10, w - 1); }
    }
  }

  lemma {:induction false} PowMono(v: nat, w: nat)
    requires v <= w
    ensures Pow10(v) <= Pow10(w)
  {
    if v < w { PowMono(v, w - 1); }
  }

  lemma PadLength(n: nat, w: nat)
    requires w >= 1
    ensures |Pad(n, w)| == w <==> n < Pow10(w)
  {
    DecLength(n, w);
  }

  /** A digit string is determined by its length and its value. */
  lemma {:induction false} ValInjective(s: string, t: string)
    requires AllDigits(s) && AllDigits(t) && |s| == |t| && Val(s) == Val(t)
    ensures s == t
  {
    if s != [] {
      var n := |s| - 1;
      ValInjective(s[..n], t[..n]);
      assert s == s[..n] + [s[n]] && t == t[..n] + [t[n]];
    }
  }

  /** Zero padding is a bijection between numbers below 10^w and w-digit strings. */
  lemma PadBijection(s: string, w: nat)
    requires w >= 1 && AllDigits(s) && |s| == w
    ensures Val(s) < Pow10(w) && Pad(Val(s), w) == s
    ensures forall n: nat :: n < Pow10(w) && Pad(n, w) == s ==> n == Val(s)
  {
    ValBound(s);
    PadLength(Val(s), w);
    ValPad(Val(s), w);
    ValInjective(Pad(Val(s), w), s);
    forall n: nat | n < Pow10(w) && Pad(n, w) == s
      ensures n == Val(s)
    {
      ValPad(n, w);
    }
  }

  // ----- lexicographic order

  lemma {:induction false} LexPrefix(p: string, a: string, b: string)
    ensures Lex(p + a, p + b) <==> Lex(a, b)
  {
    if p == [] {
      assert p + a == a && p + b == b;
    } else {
      assert (p + a)[1..] == p[1..] + a && (p + b)[1..] == p[1..] + b;
      LexPrefix(p[1..], a, b);
    }
  }

  lemma {:induction false} LexSuffix(a: string, b: string, x: string, y: string)
    requires |a| == |b| && Lex(a, b)
    ensures Lex(a + x, b + y)
  {
    assert (a + x)[0] == a[0] && (b + y)[0] == b[0];
    assert (a + x)[1..] == a[1..] + x && (b + y)[1..] == b[1..] + y;
    if a[0] == b[0] { LexSuffix(a[1..], b[1..], x, y); }
  }

  /** On strings of one length, numeric order is lexicographic order. */
  lemma {:induction false} ValOrder(s: string, t: string)
    requires AllDigits(s) && AllDigits(t) && |s| == |t| && Val(s) < Val(t)
    ensures Lex(s, t)
  {
    var n := |s| - 1;
    var s', t' := s[..n], t[..n];
    assert s == s' + [s[n]] && t == t' + [t[n]];
    if Val(s') < Val(t') {
      ValOrder(s', t');
      LexSuffix(s', t', [s[n]], [t[n]]);
    } else {
      ValInjective(s', t');
      LexPrefix(s', [s[n]], [t[n]]);
    }
  }
}
