/** Facts about Euclidean division on non-negative integers, used by the
    partition and path-formatting proofs. Dafny's `/` and `%` agree with
    Python's on the non-negative operands the model uses. */
module Arith {

  /** Division and remainder are determined by any decomposition a == k*q + r. */
  lemma DivModUnique(a: int, k: int, q: int, r: int)
    requires k > 0 && 0 <= r < k && a == k * q + r
    ensures a / k == q && a % k == r
  {
    var q0, r0 := a / k, a % k;
    assert a == k * q0 + r0;
    if q0 < q {
      assert k * q - k * q0 == k * (q - q0);
      MulAtLeast(k, q - q0);
    } else if q < q0 {
      assert k * q0 - k * q == k * (q0 - q);
      MulAtLeast(k, q0 - q);
    }
  }

  lemma MulAtLeast(k: int, d: int)
    requires k > 0 && d >= 1
    ensures k * d >= k
  {
  }
}
