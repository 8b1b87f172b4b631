/**
  Small arithmetic, powers of two, and division with a remainder by a variable.
 */
module Arith {
  function Min(a: int, b: int): int { if a < b then a else b }

  function Max(a: int, b: int): int { if a > b then a else b }

  function Bit(b: bool): nat { if b then 1 else 0 }

  function Pow2(n: nat): (r: nat)
    ensures r > 0
  {
    if n == 0 then 1 else 2 * Pow2(n - 1)
  }

  lemma {:induction false} Pow2Add(a: nat, b: nat)
    ensures Pow2(a + b) == Pow2(a) * Pow2(b)
    decreases b
  {
    if b > 0 { Pow2Add(a, b - 1); }
  }

  lemma {:induction false} Pow2Mono(a: nat, b: nat)
    requires a <= b
    ensures Pow2(a) <= Pow2(b)
    decreases b
  {
    if a < b { Pow2Mono(a, b - 1); }
  }

  lemma {:induction false} MulLess(a: nat, b: nat, d: nat)
    requires a < b
    ensures a * d + d <= b * d
    decreases b
  {
    assert b * d == (b - 1) * d + d;
    if a < b - 1 {
      MulLess(a, b - 1, d);
    }
  }

  lemma {:induction false} DivUnique(v: nat, d: nat, q: nat, r: nat)
    requires d > 0 && v == q * d + r && r < d
    ensures v / d == q && v % d == r
  {
    var q' := v / d;
    assert v == q' * d + v % d;
    if q' < q {
      MulLess(q', q, d);
    } else if q < q' {
      MulLess(q, q', d);
    }
  }

  lemma {:induction false} Distribute(q: nat, n: nat, i: nat, s: nat)
    ensures (q * n + i) * s == q * (n * s) + i * s
  {
    assert (q * n + i) * s == (q * n) * s + i * s;
    assert (q * n) * s == q * (n * s);
  }

  lemma {:induction false} DivDiv(v: nat, s: nat, n: nat)
    requires s > 0 && n > 0
    ensures n * s > 0 && v / (n * s) == (v / s) / n && v % (n * s) == ((v / s) % n) * s + v % s
  {
    var a, r := v / s, v % s;
    var q, i := a / n, a % n;
    Regroup(v, s, n, a, r, q, i);
    MulLess(i, n, s);
    DivUnique(v, n * s, q, i * s + r);
  }

  lemma {:induction false} Regroup(v: nat, s: nat, n: nat, a: nat, r: nat, q: nat, i: nat)
    requires v == a * s + r && a == q * n + i
    ensures v == q * (n * s) + (i * s + r)
  {
    Distribute(q, n, i, s);
  }
}
