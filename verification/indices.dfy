/** Positions into a sequence, as lists of indices. */
module Indices {

  /** Every position moved one place on: positions in `s[1..]` read as positions in `s`. */
  function Shift(idx: seq<nat>): (r: seq<nat>)
    ensures |r| == |idx| && forall m :: 0 <= m < |idx| ==> r[m] == idx[m] + 1
  {
    seq(|idx|, m requires 0 <= m < |idx| => idx[m] + 1)
  }
}
