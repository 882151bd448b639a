/** Integer widths used by the source, and the division facts the proofs share. */
module Arith {

  const U32_LIMIT: int := 0x1_0000_0000
  const U64_MAX: int := 0xFFFF_FFFF_FFFF_FFFF
  const U128_MAX: int := 0xFFFF_FFFF_FFFF_FFFF_FFFF_FFFF_FFFF_FFFF

  function Min(a: int, b: int): int { if a <= b then a else b }

  function Max(a: int, b: int): int { if a >= b then a else b }

  lemma MulMono(k: int, a: int, b: int)
    requires 0 <= k && a <= b
    ensures k * a <= k * b
  {
    assert 0 <= k * (b - a);
    assert k * (b - a) == k * b - k * a;
  }

  lemma MulSub(k: int, a: int, b: int)
    ensures k * (a - b) == k * a - k * b
  {
  }

  lemma MulWithinOne(k: int, d: int)
    requires 0 < k && -k < k * d < k
    ensures d == 0
  {
    if d >= 1 {
      MulMono(k, 1, d);
    } else if d <= -1 {
      MulMono(k, d, -1);
    }
  }

  lemma DivModUnique(n: int, k: int, q: int, r: int)
    requires 0 < k && n == k * q + r && 0 <= r < k
    ensures n / k == q && n % k == r
  {
    var q', r' := n / k, n % k;
    assert n == k * q' + r' by { DivModDef(n, k); }
    assert k * (q - q') == k * q - k * q';
    MulWithinOne(k, q - q');
  }

  lemma DivModDef(n: int, k: int)
    requires 0 < k
    ensures n == k * (n / k) + n % k
    ensures 0 <= n % k < k
  {
  }
}
