/** Repeating a step: facts that hold whatever the step is. */
module Iteration {

  function Iter<T>(f: T -> T, x: T, n: nat): T {
    if n == 0 then x else Iter(f, f(x), n - 1)
  }

  ghost predicate Injective<T(!new)>(f: T -> T) {
    forall a, b :: f(a) == f(b) ==> a == b
  }

  ghost predicate Homomorphic<T(!new)>(f: T -> T, op: (T, T) -> T) {
    forall a, b :: f(op(a, b)) == op(f(a), f(b))
  }

  lemma {:induction false} IterInjective<T(!new)>(f: T -> T, x: T, y: T, n: nat)
    requires Injective(f) && Iter(f, x, n) == Iter(f, y, n)
    ensures x == y
    decreases n
  {
    if n > 0 {
      IterInjective(f, f(x), f(y), n - 1);
    }
  }

  lemma {:induction false} IterHomomorphic<T(!new)>(f: T -> T, op: (T, T) -> T, x: T, y: T, n: nat)
    requires Homomorphic(f, op)
    ensures Iter(f, op(x, y), n) == op(Iter(f, x, n), Iter(f, y, n))
    decreases n
  {
    if n > 0 {
      IterHomomorphic(f, op, f(x), f(y), n - 1);
    }
  }
}
