/** Notions that several components share. */
module Common {

  datatype Option<T> = None | Some(value: T)

  function Pow2(n: nat): (r: nat)
    ensures r > 0
  {
    if n == 0 then 1 else 2 * Pow2(n - 1)
  }

  /** The numbers below n. */
  ghost function Below(n: nat): (r: set<nat>)
    ensures |r| == n && forall x: nat :: x in r <==> x < n
  {
    if n == 0 then {} else Below(n - 1) + {n - 1}
  }

  /** A rearrangement of 0, ..., n - 1. */
  ghost predicate IsPermutation(perm: seq<nat>, n: nat) {
    && |perm| == n && (forall t :: 0 <= t < n ==> perm[t] < n)
    && (forall t, u :: 0 <= t < u < n ==> perm[t] != perm[u])
    && (forall i :: 0 <= i < n ==> i in perm)
  }
}
