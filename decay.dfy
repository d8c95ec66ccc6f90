/**
 * First-order elimination. The decay factor `exp(-ln 2 / halfLife * elapsed)`
 * is floating point and is kept opaque: every computation takes it as a
 * function of (half-life in hours, elapsed hours).
 */
module Decay {
  type DecayFactor = (real, real) -> real

  /** A factor that leaves a dose whole at the moment it is taken. */
  ghost predicate StartsWhole(factor: DecayFactor) {
    forall halfLife: real :: factor(halfLife, 0.0) == 1.0
  }

  ghost predicate NonNegative(factor: DecayFactor) {
    forall halfLife: real, elapsed: real :: factor(halfLife, elapsed) >= 0.0
  }

  /** Caffeine left of `initial` mg after `elapsed` hours. */
  function Remaining(initial: real, halfLife: real, elapsed: real, factor: DecayFactor): real {
    initial * factor(halfLife, elapsed)
  }

  lemma RemainingAtZero(initial: real, halfLife: real, factor: DecayFactor)
    requires StartsWhole(factor)
    ensures Remaining(initial, halfLife, 0.0, factor) == initial
  {
    assert factor(halfLife, 0.0) == 1.0;
  }

  lemma RemainingNonNegative(initial: real, halfLife: real, elapsed: real, factor: DecayFactor)
    requires initial >= 0.0 && NonNegative(factor)
    ensures Remaining(initial, halfLife, elapsed, factor) >= 0.0
  {
    assert factor(halfLife, elapsed) >= 0.0;
  }
}
