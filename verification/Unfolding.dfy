/** A handle on a fact that should stay folded. A predicate states the fact under a
    quantifier that only a mention of `Opened` instantiates: the few members that look inside
    say `assert Opened(0)`, all others carry the predicate along, which keeps their proofs
    small. Nothing is assumed, since the quantifier ranges over all numbers. */
module Unfolding {
  ghost predicate Opened(u: int) { true }
}
