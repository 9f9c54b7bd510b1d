/** Facts about division that several modules share. */
module Arithmetic {
  lemma SmallMultiple(x: int, d: int)
    requires -d < x * d < d
    ensures x == 0
  {
  }

  lemma DivMod(q: nat, m: nat, d: nat)
    requires m < d
    ensures (q * d + m) / d == q && (q * d + m) % d == m
  {
    var i := q * d + m;
    var x := i / d - q;
    assert x * d == i / d * d - q * d;
    SmallMultiple(x, d);
  }

  lemma DivLess(i: nat, p: nat, d: nat)
    requires d > 0 && i < p * d
    ensures i / d < p
  {
    var q := i / d;
    assert q * d <= i;
    assert q >= p ==> q * d >= p * d;
  }

  lemma ProductPositive(a: nat, b: nat)
    requires a > 0 && b > 0
    ensures a * b > 0
  {
  }
}
