/** Linear interpolation (src/lerp.rs) over the reals: the numeric and
    boolean `Lerp` impls, the pair impl from the tuple macro, `quad_010`
    and the `Lerped` current/target holder (instantiated at `f32`). */
module Lerps {

  /** `Lerp for f32` and `Lerp for f64` (the factor widened to f64). */
  function LerpReal(a: real, b: real, factor: real): real
  {
    a + (b - a) * factor
  }

  /** `Lerp for bool`: switches to `other` past the midpoint. */
  function LerpBool(a: bool, b: bool, factor: real): bool
  {
    if factor > 0.5 then b else a
  }

  /** The tuple impls: each component interpolated on its own. */
  function LerpPair(a: (real, real), b: (real, real), factor: real): (real, real)
  {
    (LerpReal(a.0, b.0, factor), LerpReal(a.1, b.1, factor))
  }

  /** `quad_010`: the parabola through (0, 0), (0.5, 1) and (1, 0). */
  function Quad010(x: real): real
  {
    var e := 2.0 * x - 1.0;
    1.0 - e * e
  }

  /** Numeric lerp is `self` at factor 0, `other` at factor 1, stays between
      the two for factors in [0, 1] and is symmetric under swapping ends. */
  lemma LerpRealEndpoints(a: real, b: real, f: real)
    ensures LerpReal(a, b, 0.0) == a && LerpReal(a, b, 1.0) == b
    ensures 0.0 <= f <= 1.0 && a <= b ==> a <= LerpReal(a, b, f) <= b
    ensures LerpReal(a, b, f) == LerpReal(b, a, 1.0 - f)
  {
    if 0.0 <= f <= 1.0 && a <= b {
      MulNonNeg(b - a, f);
      MulNonNeg(b - a, 1.0 - f);
    }
  }

  lemma MulNonNeg(x: real, y: real)
    requires x >= 0.0 && y >= 0.0
    ensures x * y >= 0.0
  {
  }

  /** Boolean lerp returns `other` exactly when the factor exceeds 0.5. */
  lemma LerpBoolChoice(a: bool, b: bool, f: real)
    ensures LerpBool(a, b, f) == (if f > 0.5 then b else a)
    ensures LerpBool(a, b, 0.0) == a && LerpBool(a, b, 1.0) == b
  {
  }

  lemma LerpPairComponentwise(a: (real, real), b: (real, real), f: real)
    ensures LerpPair(a, b, f).0 == LerpReal(a.0, b.0, f) && LerpPair(a, b, f).1 == LerpReal(a.1, b.1, f)
    ensures LerpPair(a, b, 0.0) == a && LerpPair(a, b, 1.0) == b
  {
  }

  /** `quad_010` maps 0 to 0, 0.5 to 1 and 1 to 0, and never exceeds 1. */
  lemma Quad010Values(x: real)
    ensures Quad010(0.0) == 0.0 && Quad010(0.5) == 1.0 && Quad010(1.0) == 0.0
    ensures Quad010(x) <= 1.0
    ensures Quad010(x) == Quad010(1.0 - x)
  {
  }

  /** `Lerped<f32>`: a current value that moves towards a target. */
  class Lerped {
    var current: real
    var target: real

    /** `Lerped::new`: current and target both start at `value`. */
    constructor (value: real)
      ensures current == value && target == value
    {
      current := value;
      target := value;
    }

    /** `Lerped::lerp`: moves `current` towards `target` by `factor`. */
    method Lerp(factor: real)
      modifies this
      ensures current == LerpReal(old(current), target, factor)
      ensures target == old(target)
      ensures 0.0 <= factor <= 1.0 ==>
                (old(current) <= target ==> old(current) <= current <= target) &&
                (target <= old(current) ==> target <= current <= old(current))
    {
      LerpRealEndpoints(current, target, factor);
      LerpRealEndpoints(target, current, 1.0 - factor);
      current := LerpReal(current, target, factor);
    }

    /** `set_target`: current is left alone. */
    method SetTarget(value: real)
      modifies this
      ensures target == value && current == old(current)
    {
      target := value;
    }

    /** `set_current_to_target`: the two become equal. */
    method SetCurrentToTarget()
      modifies this
      ensures current == target && target == old(target)
    {
      current := target;
    }
  }
}
