/** Finite sums of integer functions, used by the termination measures. */
module Sums {

  ghost function Sum(n: nat, f: int -> int): int {
    if n == 0 then 0 else Sum(n - 1, f) + f(n - 1)
  }

  lemma {:induction false} SumMonotone(n: nat, f: int -> int, g: int -> int)
    requires forall k :: 0 <= k < n ==> f(k) <= g(k)
    ensures Sum(n, f) <= Sum(n, g)
  {
    if n > 0 {
      SumMonotone(n - 1, f, g);
    }
  }

  lemma SumSame(n: nat, f: int -> int, g: int -> int)
    requires forall k :: 0 <= k < n ==> f(k) == g(k)
    ensures Sum(n, f) == Sum(n, g)
  {
    SumMonotone(n, f, g);
    SumMonotone(n, g, f);
  }

  /** Every term rises by at most `rise`, and term `x` moves by at most `delta`. */
  lemma {:induction false} SumOneMoves(n: nat, f: int -> int, g: int -> int, x: nat, delta: int, rise: nat)
    requires x < n
    requires forall k :: 0 <= k < n && k != x ==> g(k) <= f(k) + rise
    requires g(x) <= f(x) + delta
    ensures Sum(n, g) <= Sum(n, f) + delta + (n - 1) * rise
  {
    if x == n - 1 {
      SumAllRise(n - 1, f, g, rise);
    } else {
      SumOneMoves(n - 1, f, g, x, delta, rise);
      assert (n - 1) * rise == (n - 2) * rise + rise;
    }
  }

  lemma {:induction false} SumAllRise(n: nat, f: int -> int, g: int -> int, rise: nat)
    requires forall k :: 0 <= k < n ==> g(k) <= f(k) + rise
    ensures Sum(n, g) <= Sum(n, f) + n * rise
  {
    if n > 0 {
      SumAllRise(n - 1, f, g, rise);
      assert n * rise == (n - 1) * rise + rise;
    }
  }

  lemma {:induction false} SumNonNegative(n: nat, f: int -> int)
    requires forall k :: 0 <= k < n ==> 0 <= f(k)
    ensures 0 <= Sum(n, f)
  {
    if n > 0 {
      SumNonNegative(n - 1, f);
    }
  }
}
