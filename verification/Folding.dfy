/** Keeps formulas folded. A formula written `forall u {:trigger Look(u)} :: Look(u) ==> F` means F, but the solver
    takes F into account only where `Look(0)` is asserted. */
module Folding {
  ghost predicate Look(u: int) {
    true
  }

  /** The same for formulas about folded formulas, */
  ghost predicate Glance(u: int) {
    true
  }

  /** and for those about these. */
  ghost predicate Peek(u: int) {
    true
  }
}
