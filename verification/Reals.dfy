/** Absolute value and the smaller and larger of two numbers. */
module Reals {
  function Abs(x: real): real { if x < 0.0 then -x else x }
  function Min(a: real, b: real): real { if b < a then b else a }
  function Max(a: real, b: real): real { if a < b then b else a }
}
