/** numpy float arrays, with NaN as a missing value. */
module Floats {
  import opened Wrappers

  /** A float array; `None` stands for NaN. */
  type Series = seq<Option<real>>

  function Abs(d: real): (r: real)
    ensures r >= 0.0 && (r == d || r == -d)
  {
    if d < 0.0 then -d else d
  }
}
