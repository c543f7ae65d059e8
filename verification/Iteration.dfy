/** A step taken over and over, and runs of it with pauses. */
module Iteration {

  function Iterate<T>(f: T -> T, x: T, n: nat): T {
    if n == 0 then x else f(Iterate(f, x, n - 1))
  }

  /** Each element is the one before it, or that one a step later. */
  ghost predicate IsStepping<T>(f: T -> T, xs: seq<T>) {
    forall j :: 0 <= j < |xs| - 1 ==> xs[j + 1] == xs[j] || xs[j + 1] == f(xs[j])
  }

  lemma SteppingFromFront<T>(f: T -> T, x: T, rest: seq<T>)
    requires rest != [] && IsStepping(f, rest) && (rest[0] == x || rest[0] == f(x))
    ensures IsStepping(f, [x] + rest)
  {
    var xs := [x] + rest;
    forall j | 0 <= j < |xs| - 1
      ensures xs[j + 1] == xs[j] || xs[j + 1] == f(xs[j])
    {
      assert j > 0 ==> xs[j] == rest[j - 1] && xs[j + 1] == rest[j];
    }
  }

  /** Every element is some number of steps from the first. */
  lemma {:induction false} ElementIsIterate<T>(f: T -> T, xs: seq<T>, j: nat) returns (n: nat)
    requires IsStepping(f, xs) && j < |xs|
    ensures xs[j] == Iterate(f, xs[0], n)
  {
    n := 0;
    if j > 0 {
      n := ElementIsIterate(f, xs, j - 1);
      if xs[j] != xs[j - 1] {
        n := n + 1;
      }
    }
  }

  lemma {:induction false} FixedPointStays<T>(f: T -> T, x: T, n: nat, m: nat)
    requires n <= m && f(Iterate(f, x, n)) == Iterate(f, x, n)
    ensures Iterate(f, x, m) == Iterate(f, x, n)
    decreases m
  {
    if n < m {
      FixedPointStays(f, x, n, m - 1);
    }
  }

  /** A run that ends where the step changes nothing has passed through every step that
      changes something. */
  lemma {:induction false} RunPassesStep<T>(f: T -> T, xs: seq<T>, i: nat, n: nat, m: nat) returns (j: nat)
    requires IsStepping(f, xs) && i < |xs| && xs[i] == Iterate(f, xs[0], n) && n <= m
    requires f(xs[|xs| - 1]) == xs[|xs| - 1]
    requires Iterate(f, xs[0], m + 1) != Iterate(f, xs[0], m)
    ensures j < |xs| - 1 && xs[j] == Iterate(f, xs[0], m) && xs[j + 1] == Iterate(f, xs[0], m + 1)
    decreases |xs| - i
  {
    j := i;
    if i == |xs| - 1 {
      FixedPointStays(f, xs[0], n, m);
    } else if xs[i + 1] == xs[i] {
      j := RunPassesStep(f, xs, i + 1, n, m);
    } else if n < m {
      j := RunPassesStep(f, xs, i + 1, n + 1, m);
    }
  }
}
