/** Greatest common divisors, and the remainders that multiples of a number leave. */
module Divisors {
  import opened Arith

  function Gcd(a: nat, b: nat): nat
    decreases b
  {
    if b == 0 then a else Gcd(b, a % b)
  }

  lemma {:induction false} GcdDivides(a: nat, b: nat) returns (p: nat, q: nat)
    requires a > 0 || b > 0
    ensures Gcd(a, b) > 0 && a == Gcd(a, b) * p && b == Gcd(a, b) * q
    decreases b
  {
    var g := Gcd(a, b);
    if b == 0 {
      p, q := 1, 0;
    } else {
      var p', q' := GcdDivides(b, a % b);
      DivModDef(a, b);
      p, q := p' * (a / b) + q', p';
      assert g * (p' * (a / b)) == b * (a / b);
      assert g * p == g * (p' * (a / b)) + g * q';
    }
  }

  /** The greatest common divisor is a combination of the two numbers. */
  lemma {:induction false} Bezout(a: nat, b: nat) returns (x: int, y: int)
    ensures x * a + y * b == Gcd(a, b)
    decreases b
  {
    if b == 0 {
      x, y := 1, 0;
    } else {
      var x', y' := Bezout(b, a % b);
      DivModDef(a, b);
      x, y := y', x' - y' * (a / b);
      assert y * b == x' * b - y' * (b * (a / b));
      assert y' * (a % b) == y' * a - y' * (b * (a / b));
    }
  }

  lemma NextMultiple(g: int, m: int, q: int)
    requires g > 0 && g * m < g * q
    ensures g * m <= g * q - g
  {
    if m >= q { MulMono(g, q, m); }
    MulMono(g, m, q - 1);
    assert g * (q - 1) == g * q - g;
  }

  /** No multiple of a leaves more than t minus the greatest common divisor modulo t. */
  lemma RemainderAtMost(a: nat, t: nat, k: nat)
    requires t > 0
    ensures (k * a) % t <= t - Gcd(a, t)
  {
    var g := Gcd(a, t);
    var p, q := GcdDivides(a, t);
    hide Gcd;
    var z := (k * a) / t;
    DivModDef(k * a, t);
    var m := k * p - z * q;
    Associate(g, p, k);
    Associate(g, q, z);
    assert g * m == g * (k * p) - g * (z * q);
    NextMultiple(g, m, q);
  }

  lemma Associate(g: int, p: int, k: int)
    ensures k * (g * p) == g * (k * p) == (g * p) * k
  {
  }

  /** Some multiple of a leaves exactly that. */
  lemma RemainderReached(a: nat, t: nat) returns (k: nat)
    requires t > 0
    ensures (k * a) % t == t - Gcd(a, t)
  {
    var g := Gcd(a, t);
    var p, q := GcdDivides(a, t);
    var x, y := Bezout(a, t);
    hide Gcd;
    assert q != 0;
    MulMono(g, 1, q);
    k := (-x) % t;
    var z := (-x) / t;
    DivModDef(-x, t);
    assert k == -x - t * z;
    assert k * a == -(x * a) - t * (z * a) by { assert (t * z) * a == t * (z * a); }
    var d := y - z * a - 1;
    assert t * d == y * t - t * (z * a) - t;
    DivModUnique(k * a, t, d, t - g);
  }
}
