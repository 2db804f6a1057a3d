/** Hash values are spread over buckets and partitions by their remainder. */
module Remainders {

  predicate Splits(h: nat, n: nat, q: nat, r: nat) { h == q * n + r }

  /** r is what is left of h when it is divided by n. */
  ghost predicate IsRemainder(h: nat, n: nat, r: nat) { r < n && exists q: nat :: Splits(h, n, q, r) }

  function Remainder(h: nat, n: nat): (r: nat)
    requires 0 < n
    ensures IsRemainder(h, n, r)
  {
    assert Splits(h, n, h / n, h % n);
    h % n
  }
}
