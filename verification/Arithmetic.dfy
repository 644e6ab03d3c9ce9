/** Arithmetic that the ring buffers, the counts and the wrapping tick count share. */
module Arithmetic {
  function Least(a: nat, b: nat): nat {
    if a < b then a else b
  }

  /** An index moved on by less than a full turn. */
  function Wrap(i: nat, length: nat): nat {
    if i >= length then i - length else i
  }

  lemma Multiples(k: int, d: int)
    requires 0 < d
    ensures k >= 1 ==> k * d >= d
    ensures k <= -1 ==> k * d <= -d
  {
    if k >= 1 {
      assert k * d == d + (k - 1) * d;
    } else if k <= -1 {
      assert k * d == -d + (k + 1) * d;
    }
  }

  /** Quotient and remainder are the only pair that fits. */
  lemma ModUnique(n: int, d: int, q: int, r: int)
    requires 0 <= r < d && n == q * d + r
    ensures n / d == q && n % d == r
  {
    var q' := n / d;
    assert n == q' * d + n % d;
    assert (q - q') * d == n % d - r;
    Multiples(q - q', d);
  }
}
