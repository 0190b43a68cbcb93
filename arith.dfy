/** Integer facts the model's arithmetic rests on, and the remainder of a
    truncating division as the `%` operator on numbers computes it. */
module Arith {
  /** A positive multiple of a positive factor is at least that factor. */
  lemma {:induction false} MulAtLeast(k: nat, d: nat)
    requires d >= 1
    ensures k * d >= k
    decreases d
  {
    if d > 1 {
      MulAtLeast(k, d - 1);
      assert k * d == k * (d - 1) + k;
    }
  }

  /** A positive factor can be cancelled from both sides of `<=`. */
  lemma MulCancel(k: int, a: int, b: int)
    requires k > 0
    ensures k * a <= k * b ==> a <= b
  {
    if a > b {
      MulAtLeast(k, a - b);
      assert k * a - k * b == k * (a - b);
    }
  }

  /** Multiplying by a non-negative factor keeps `<=`. */
  lemma MulMono(k: nat, a: int, b: int)
    requires a <= b
    ensures k * a <= k * b
  {
    if a < b {
      MulAtLeast(k, b - a);
      assert k * b - k * a == k * (b - a);
    }
  }

  /** The remainder of a truncating division (`%` on numbers): it takes the
      sign of the dividend and is smaller than the divisor in magnitude. */
  function TruncRem(a: int, d: int): (r: int)
    requires d > 0
    ensures a >= 0 ==> 0 <= r < d
    ensures a < 0 ==> -d < r <= 0
  {
    if a >= 0 then a % d else -((-a) % d)
  }
}
