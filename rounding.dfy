/**
  The split value of `split` computed in IEEE 754 double precision. With
  exact reals the midpoint `min + (max - min) / 2` of a positive extent lies
  strictly above `min` (`Geometry.MidpointSeparates`), which is what makes
  every split put entries on the left. In doubles the midpoint of two
  adjacent numbers rounds back to `min`, every entry goes right, and the
  right leaf is the leaf that was being split.
 */
module Rounding {
  import opened Geometry
  import opened Nodes
  import opened SplitDefs
  import opened Splitting

  /** 2^52: the number of doubles in [1, 2). */
  const Scale: real := 4503599627370496.0

  /** 2^-52, the spacing of the doubles in [1, 2). */
  const Ulp: real := 1.0 / Scale

  /**
    Rounding to the nearest double, for a value in [1, 2). The doubles there
    are `1 + m * Ulp` for `0 <= m < 2^52`, and the last bit of the
    significand of `1 + m * Ulp` is the parity of `m`; a tie goes to the one
    whose last bit is 0.
   */
  function RoundNearestEven(x: real): (r: real)
    requires 1.0 <= x < 2.0
    ensures 1.0 <= r <= 2.0
    ensures -Ulp / 2.0 <= r - x <= Ulp / 2.0
  {
    var scaled := (x - 1.0) * Scale;
    var m := scaled.Floor;
    var frac := scaled - m as real;
    if frac < 0.5 || (frac == 0.5 && m % 2 == 0) then 1.0 + m as real * Ulp
    else 1.0 + (m + 1) as real * Ulp
  }

  /**
    `min + (max - min) / 2` in doubles, for doubles `1 <= min <= max < 2`.
    There the subtraction is exact (Sterbenz's lemma), and halving is exact
    for a normal number, so only the addition rounds.
   */
  function RoundedMidpoint(lo: real, hi: real): (r: real)
    requires 1.0 <= lo <= hi < 2.0
    ensures lo - Ulp / 2.0 <= r <= hi + Ulp / 2.0
  {
    RoundNearestEven(lo + (hi - lo) / 2.0)
  }

  /**
    Entries at the adjacent doubles 1 and 1 + 2^-52 in a tree of capacity 1:
    their bounds have a positive extent in dimension 0, so `split` goes on,
    but the rounded split value is the minimum 1. No entry lies strictly
    below it, so `swap_remove(0)` deals both, in their order, to the right
    leaf, which then holds the same two entries with the same bounds and
    splits again in the same way, without end.
   */
  lemma RoundedSplitRepeats<T>(a: T, b: T)
    ensures var es := [Entry([1.0], a), Entry([1.0 + Ulp], b)];
            PointsOfDim(es, 1) &&
            var box := HullOf(es, 1);
            box == Box([1.0], [1.0 + Ulp]) && IsSplitDimension(box, 0) &&
            RoundedMidpoint(box.lo[0], box.hi[0]) == box.lo[0] &&
            (forall i :: 0 <= i < |es| ==> !(es[i].point[0] < RoundedMidpoint(box.lo[0], box.hi[0]))) &&
            [es[0]] + SwapRemoveFirst(es) == es
  {
    var es := [Entry([1.0], a), Entry([1.0 + Ulp], b)];
    assert es[..1] == [es[0]];
    assert es[..1][..0] == [];
    var b0 := HullOf(es[..1], 1);
    assert b0 == Box([1.0], [1.0]);
    var box := HullOf(es, 1);
    assert box.lo == [1.0] && box.hi == [1.0 + Ulp];
    var scaled := (1.0 + Ulp / 2.0 - 1.0) * Scale;
    assert scaled == 0.5;
    assert scaled.Floor == 0;
  }
}
