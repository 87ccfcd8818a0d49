/** Facts about Euclidean division on positive divisors that the cycle length
    and the batching buffer rely on. */
module Arithmetic {

  lemma MulIsAtLeast(x: int, c: int)
    requires x >= 1 && c >= 1
    ensures x * c >= x
  {
  }

  /** Euclidean division is unique: quotient and remainder are determined. */
  lemma DivModUnique(z: int, x: int, q: int, r: int)
    requires x >= 1 && 0 <= r < x && z == x * q + r
    ensures z % x == r && z / x == q
  {
    var q', r' := z / x, z % x;
    assert z == x * q' + r';
    assert x * (q - q') == r' - r;
    if q - q' >= 1 { MulIsAtLeast(x, q - q'); }
    else if q' - q >= 1 { MulIsAtLeast(x, q' - q); }
  }

  lemma MulIsMultiple(x: int, k: int)
    requires x >= 1
    ensures (x * k) % x == 0
  {
    DivModUnique(x * k, x, k, 0);
  }

  lemma DividesTransitive(x: nat, y: nat, z: nat)
    requires x >= 1 && y >= 1 && y % x == 0 && z % y == 0
    ensures z % x == 0
  {
    var p, q := y / x, z / y;
    assert y == x * p;
    assert z == y * q;
    assert z == x * (p * q);
    MulIsMultiple(x, p * q);
  }

  lemma DifferenceIsMultiple(d: nat, x: nat, y: nat)
    requires d >= 1 && x % d == 0 && y % d == 0
    ensures (x - y) % d == 0
  {
    var p, q := x / d, y / d;
    assert x == d * p && y == d * q;
    assert x - y == d * (p - q);
    MulIsMultiple(d, p - q);
  }

  lemma SmallIsNotMultiple(k: int, a: int)
    requires 1 <= k < a
    ensures k % a != 0
  {
    DivModUnique(k, a, 0, k);
  }
}
