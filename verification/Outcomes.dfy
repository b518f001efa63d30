/** What a kernel routine does with its caller: it returns a value, or it runs
    into a failing ASSERT (or an access no array has) and the kernel stops. */
module Outcomes {
  datatype Outcome<+T> = Returned(value: T) | Halted

  // Large invariants are written `forall x :: Look(x) ==> ...`: their content then stays out
  // of the proofs that only hand them on, and `assert Look(0)` brings it in.
  ghost predicate Look(x: int) { true }

  // The same for invariants that have such invariants in them,
  ghost predicate Peek(x: int) { true }

  // and for the representation of an object.
  ghost predicate Inside(x: int) { true }

  // The integers 0 .. n-1.
  function Range(n: nat): (r: set<nat>)
    ensures |r| == n
    ensures forall i: nat :: i in r <==> i < n
  {
    if n == 0 then {} else Range(n - 1) + {n - 1}
  }

  predicate FullBelow(m: set<nat>, n: nat)
  {
    forall k: nat :: k < n ==> k in m
  }

  // A set of numbers below n has at most n members, and n exactly when it has them all.
  lemma BelowSize(m: set<nat>, n: nat)
    requires forall k :: k in m ==> k < n
    ensures |m| <= n
    ensures |m| == n <==> FullBelow(m, n)
  {
    var rest := Range(n) - m;
    assert Range(n) == m + rest;
    if rest == {} {
      assert forall k: nat :: k < n ==> k in Range(n);
    } else {
      var x :| x in rest;
    }
  }

  function Min(a: int, b: int): int { if a <= b then a else b }

  function Max(a: int, b: int): int { if a <= b then b else a }

  // divRoundUp of code/threads/utility.h, on the non-negative numbers it is used for.
  function DivRoundUp(n: nat, s: nat): (r: nat)
    requires s > 0
  {
    n / s + (if n % s > 0 then 1 else 0)
  }

  // The least number of pieces of size s that hold n.
  lemma DivRoundUpLeast(n: nat, s: nat)
    requires s > 0
    ensures n <= DivRoundUp(n, s) * s < n + s
  {
    assert n == n / s * s + n % s;
    assert (n / s + 1) * s == n / s * s + s;
  }
}
