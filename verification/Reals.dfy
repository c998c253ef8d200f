/** What several modules need of real numbers. */
module Reals {

  function Abs(x: real): real { if x < 0.0 then -x else x }

  /** Conversion to int: toward zero. */
  function Truncate(f: real): int {
    if f >= 0.0 then f.Floor else -((-f).Floor)
  }
}
