/** Division and powers of two, as far as the other modules need them. */
module Arith {

  lemma DivModUnique(x: int, k: nat, q: int, r: nat)
    requires r < k && x == k * q + r
    ensures x / k == q && x % k == r
  {
    var d := q - x / k;
    assert k * d == x % k - r by { assert k * d == k * q - k * (x / k); }
    assert k * -d == -(k * d);
    if d >= 1 { MulGrows(k, d); } else if d <= -1 { MulGrows(k, -d); }
  }

  lemma MulGrows(k: nat, d: int)
    requires d >= 1
    ensures k * d >= k
  {
  }

  lemma ModMinus(i: nat, k: nat)
    requires 0 < k <= i
    ensures (i - k) % k == i % k
  {
    var q := i / k;
    assert k * (q - 1) == k * q - k;
    DivModUnique(i - k, k, q - 1, i % k);
  }
}
