/** numpy's closeness test, used for every "same physical quantity in two frames" check. */
module Tolerance {

  function Abs(x: real): (r: real)
    ensures r >= 0.0 && (r == x || r == -x)
  {
    if x < 0.0 then -x else x
  }

  /** `np.isclose(a, b, rtol, atol)`: |a - b| <= atol + rtol * |b|, with `b` the reference. */
  predicate IsClose(a: real, b: real, rtol: real, atol: real)
  {
    Abs(a - b) <= atol + rtol * Abs(b)
  }

  /** The test is not symmetric: swapping the arguments can change the answer. */
  lemma IsCloseAsymmetric()
    ensures IsClose(1.0, 2.0, 0.5, 0.0) && !IsClose(2.0, 1.0, 0.5, 0.0)
  {
  }

  /** With non-negative tolerances every value is close to itself. */
  lemma IsCloseReflexive(a: real, rtol: real, atol: real)
    requires rtol >= 0.0 && atol >= 0.0
    ensures IsClose(a, a, rtol, atol)
  {
  }
}
