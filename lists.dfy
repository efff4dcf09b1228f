/** A helper shared by the enumerations of `itertools`. */
module Lists {
  /** Every sequence of ps with x put in front of it. */
  function Prepend(x: int, ps: seq<seq<int>>): (r: seq<seq<int>>)
    ensures |r| == |ps| && forall q :: 0 <= q < |r| ==> r[q] == [x] + ps[q]
  {
    seq(|ps|, q requires 0 <= q < |ps| => [x] + ps[q])
  }
}
