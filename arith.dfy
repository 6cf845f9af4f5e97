/** Natural-number arithmetic used by the decoder: powers of two and the
    division/remainder identities behind shifts and masks. Lua's
    `bit.rshift(v, s)` is `v / 2^s` and `bit.band(x, 2^b - 1)` is `x % 2^b`
    on naturals. */
module Arith {

  /** 2^n, the value of `1 << n`. */
  function Pow2(n: nat): (r: nat)
    ensures r >= 1
    ensures n > 0 ==> r >= 2
  {
    if n == 0 then 1 else 2 * Pow2(n - 1)
  }

  lemma {:induction false} Pow2Add(a: nat, b: nat)
    ensures Pow2(a + b) == Pow2(a) * Pow2(b)
  {
    if a > 0 {
      Pow2Add(a - 1, b);
      assert Pow2(a + b) == 2 * Pow2(a - 1 + b);
      MulAssoc(2, Pow2(a - 1), Pow2(b));
    }
  }

  /** Multiplying by a natural keeps the order. */
  lemma MulMono(x: int, y: int, d: nat)
    ensures x <= y ==> x * d <= y * d
  {
    if x <= y {
      assert y * d - x * d == (y - x) * d;
    }
  }

  /** Quotient and remainder are determined by the defining equation. */
  lemma DivModUnique(v: nat, d: nat, q: nat, r: nat)
    requires d > 0 && r < d && v == q * d + r
    ensures v / d == q && v % d == r
  {
    var q', r' := v / d, v % d;
    assert v == q' * d + r';
    MulMono(q' + 1, q, d);
    MulMono(q + 1, q', d);
    assert q' == q;
  }

  lemma MulAssoc(x: int, y: int, z: int)
    ensures x * (y * z) == (x * y) * z
  {
  }

  lemma MulAddRight(x: int, y: int, z: int)
    ensures (x + y) * z == x * z + y * z
  {
  }

  /** The algebra behind two successive divisions, free of `/` and `%`. */
  lemma NestedQuotient(v: nat, a: nat, b: nat, Q: nat, t: nat, q: nat, s: nat)
    requires a > 0 && b > 0
    requires v == Q * a + t && t < a
    requires Q == q * b + s && s < b
    ensures v == q * (a * b) + (s * a + t)
    ensures s * a + t < a * b
  {
    MulAddRight(q * b, s, a);
    MulAssoc(q, b, a);
    MulMono(s + 1, b, a);
    MulAddRight(s, 1, a);
  }

  /** Shifting right by a and then by b is shifting by a + b (in products). */
  lemma DivDiv(v: nat, a: nat, b: nat)
    requires a > 0 && b > 0
    ensures (v / a) / b == v / (a * b)
    ensures ((v / a) % b) * a + v % a == v % (a * b)
  {
    var Q := v / a;
    NestedQuotient(v, a, b, Q, v % a, Q / b, Q % b);
    DivModUnique(v, a * b, Q / b, (Q % b) * a + v % a);
  }

  lemma DivExact(n: nat, d: nat)
    requires d > 0 && n % d == 0
    ensures d * (n / d) == n
  {
    var q := n / d;
    assert n == q * d + n % d;
  }

  /** A natural below 2^n is its own remainder modulo 2^n. */
  lemma SmallMod(v: nat, n: nat)
    requires v < Pow2(n)
    ensures v % Pow2(n) == v
  {
    DivModUnique(v, Pow2(n), 0, v);
  }

  /** Integer division of naturals, known to give a natural. */
  function Quot(n: nat, d: nat): (q: nat)
    requires d > 0
    ensures q == n / d
    ensures q * d <= n < (q + 1) * d
  {
    n / d
  }
}
