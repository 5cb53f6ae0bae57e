/** Multiples of a positive number. */
module Multiples {

  lemma SmallMultiple(x: int, n: int)
    requires 0 <= x * n < n
    ensures x == 0
  {
  }

  lemma MultipleOf(q: int, factor: nat)
    requires factor > 0
    ensures q * factor % factor == 0
  {
    var d := q * factor / factor;
    assert (q - d) * factor == q * factor % factor;
    SmallMultiple(q - d, factor);
  }

  lemma AlignedSum(a: int, b: int, n: nat)
    requires n > 0 && a % n == 0 && b % n == 0
    ensures (a + b) % n == 0
  {
    var i, j := a / n, b / n;
    assert a + b == (i + j) * n;
    MultipleOf(i + j, n);
  }
}
