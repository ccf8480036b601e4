/** Multiplication and division by a fixed size, as slots, sectors and blocks need them. */
module Multiples {
  function Power2(n: nat): nat { if n == 0 then 1 else 2 * Power2(n - 1) }

  lemma Scaled(a: nat, b: nat, n: nat)
    ensures (a + b) * n == a * n + b * n
  {
  }

  /** Multiples of `d` are at least `d` apart. */
  lemma Apart(a: nat, b: nat, d: nat)
    requires a < b
    ensures a * d + d <= b * d
  {
    Scaled(a + 1, b - a - 1, d);
    Scaled(a, 1, d);
  }

  lemma DivUnique(n: nat, d: nat, q: nat)
    requires d > 0 && n == q * d
    ensures n / d == q && n % d == 0
  {
    var q', r := n / d, n % d;
    assert n == q' * d + r;
    if q' < q { Apart(q', q, d); }
    if q < q' { Apart(q, q', d); }
  }

  lemma Remainder(x: nat, d: nat, q: nat, r: nat)
    requires d > 0 && r < d && x == q * d + r
    ensures x % d == r
  {
    var q', r' := x / d, x % d;
    assert x == q' * d + r';
    if q' < q { Apart(q', q, d); }
    if q < q' { Apart(q, q', d); }
  }

  lemma QuotientIs(x: nat, d: nat, q: nat, r: nat)
    requires d > 0 && r < d && x == q * d + r
    ensures x / d == q
  {
    var q', r' := x / d, x % d;
    assert x == q' * d + r';
    if q' < q { Apart(q', q, d); }
    if q < q' { Apart(q, q', d); }
  }

  lemma DivMonotone(a: nat, b: nat, d: nat)
    requires d > 0 && a <= b
    ensures a / d <= b / d
  {
    assert a == a / d * d + a % d && b == b / d * d + b % d;
    if b / d < a / d { Apart(b / d, a / d, d); }
  }

  lemma GridApart(x: nat, y: nat, d: nat)
    requires d > 0 && x % d == 0 && y % d == 0 && x < y
    ensures x + d <= y
  {
    assert x == x / d * d && y == y / d * d;
    DivMonotone(x, y, d);
    if x / d < y / d { Apart(x / d, y / d, d); }
  }
}
