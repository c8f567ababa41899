/**
 Facts about multiples that the solver does not find by itself.
 */
module Arithmetic {

  lemma ProductAtLeast(q: int, a: nat)
    requires a > 0
    ensures q >= 1 ==> q * a >= a
    ensures q <= -1 ==> q * a + a <= 0
  {
    if q >= 1 {
      assert (q - 1) * a >= 0;
    } else if q <= -1 {
      assert (-q - 1) * a >= 0;
    }
  }

  lemma MultipleIsAligned(k: nat, a: nat)
    requires a > 0
    ensures k * a % a == 0
  {
    var q := k * a / a;
    assert (k - q) * a == k * a % a;
    ProductAtLeast(k - q, a);
  }

  lemma PositiveMultiple(x: nat, a: nat)
    requires a > 0 && x > 0 && x % a == 0
    ensures x >= a
  {
    ProductAtLeast(x / a, a);
  }

  /** Taking away one divisor lowers the quotient by one. */
  lemma QuotientStep(len: nat, size: nat)
    requires 0 < size <= len
    ensures (len - size) / size == len / size - 1 && len / size * size == size + (len - size) / size * size
  {
    var q, q' := len / size, (len - size) / size;
    assert q * size + len % size == len && q' * size + (len - size) % size == len - size;
    assert (q' + 1 - q) * size == len % size - (len - size) % size;
    ProductAtLeast(q' + 1 - q, size);
  }
}
