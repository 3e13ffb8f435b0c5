// Quotients and residues of integers, for any positive modulus.
module Residues {

  lemma MulBound(k: int, q: int)
    requires 0 < q
    ensures 1 <= k ==> q <= k * q
    ensures k <= -1 ==> k * q <= -q
  {
  }

  lemma DistributeSum(a: int, b: int, q: int)
    ensures (a + b) * q == a * q + b * q
  {
  }

  lemma DistributeDifference(a: int, b: int, q: int)
    ensures (a - b) * q == a * q - b * q
  {
  }

  // A quotient and a remainder within bounds are the ones division finds.
  lemma ModUnique(a: int, k: int, r: int, q: int)
    requires 0 < q && 0 <= r < q && a == k * q + r
    ensures a % q == r && a / q == k
  {
    var d := a / q - k;
    DistributeDifference(a / q, k, q);
    MulBound(d, q);
  }

  // Adding a multiple of q does not change a residue.
  lemma ModShift(a: int, k: int, q: int)
    requires 0 < q
    ensures (a + k * q) % q == a % q
  {
    var d := a / q;
    DistributeSum(d, k, q);
    ModUnique(a + k * q, d + k, a % q, q);
  }
}
