/** Talking about a predicate by name, without its definition. */
module Naming {

  // Any number: nothing below depends on which.
  ghost const DEPTH: nat

  ghost predicate Wrapped<T>(layers: nat, p: T -> bool, t: T) {
    if layers == 0 then p(t) else Wrapped(layers - 1, p, t)
  }

  /** `p(t)`, wrapped in enough layers that a proof has to call `Named` to see what `p` says. */
  ghost predicate Holds<T>(p: T -> bool, t: T) {
    Wrapped(DEPTH + 4, p, t)
  }

  lemma {:induction false} Unwrap<T>(layers: nat, p: T -> bool, t: T)
    ensures Wrapped(layers, p, t) <==> p(t)
  {
    if layers > 0 {
      Unwrap(layers - 1, p, t);
    }
  }

  lemma Named<T>(p: T -> bool, t: T)
    ensures Holds(p, t) <==> p(t)
  {
    Unwrap(DEPTH + 4, p, t);
  }
}
