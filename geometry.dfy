/**
  Points, coordinates, error kinds and axis-aligned bounding boxes of the
  k-d tree (the `min_bounds`/`max_bounds` pair of every node).
 */
module Geometry {

  datatype Option<T> = None | Some(value: T)

  /** The two errors the tree reports. */
  datatype ErrorKind = NonFiniteCoordinate | ZeroCapacity

  datatype Result<R> = Ok(value: R) | Err(error: ErrorKind)

  /** A floating-point coordinate as the caller passes it: finite or not (NaN, +inf, -inf). */
  datatype Coord = Finite(r: real) | NonFinite

  /** A point whose coordinates are all finite, as stored in the tree. */
  type Point = seq<real>

  function Min(a: real, b: real): real { if a <= b then a else b }
  function Max(a: real, b: real): real { if a >= b then a else b }

  predicate AllFinite(p: seq<Coord>)
  {
    forall i :: 0 <= i < |p| ==> p[i].Finite?
  }

  /** `check_point`: every coordinate must be finite. */
  function CheckPoint(p: seq<Coord>): (r: Result<Point>)
    ensures r.Ok? <==> AllFinite(p)
    ensures r.Err? ==> r.error == NonFiniteCoordinate
    ensures r.Ok? ==> |r.value| == |p| && forall i :: 0 <= i < |p| ==> r.value[i] == p[i].r
  {
    if AllFinite(p) then Ok(seq(|p|, i requires 0 <= i < |p| => p[i].r))
    else Err(NonFiniteCoordinate)
  }

  /**
    Bounds of a node. `EmptyBox` stands for the initial bounds in which every
    minimum is +infinity and every maximum is -infinity, so that no point lies
    inside; `Box(lo, hi)` holds the finite per-dimension minima and maxima.
   */
  datatype Box = EmptyBox | Box(lo: seq<real>, hi: seq<real>)

  /** The box is well formed for dimension `dim`. */
  ghost predicate BoxOk(b: Box, dim: nat)
  {
    b.Box? ==> |b.lo| == dim && |b.hi| == dim && forall j :: 0 <= j < dim ==> b.lo[j] <= b.hi[j]
  }

  predicate InBox(p: Point, b: Box)
  {
    b.Box? && |b.lo| == |p| && |b.hi| == |p| &&
    forall j :: 0 <= j < |p| ==> b.lo[j] <= p[j] <= b.hi[j]
  }

  /** Every box point of `a` is a box point of `b`, coordinate by coordinate. */
  ghost predicate BoxWithin(a: Box, b: Box)
  {
    a.Box? ==>
      b.Box? && |a.lo| == |b.lo| && |a.hi| == |b.hi| &&
      (forall j :: 0 <= j < |a.lo| ==> b.lo[j] <= a.lo[j]) &&
      (forall j :: 0 <= j < |a.hi| ==> a.hi[j] <= b.hi[j])
  }

  /** No dimension of the box has a positive extent `max - min`. */
  predicate Degenerate(b: Box)
  {
    b.Box? ==> forall j :: 0 <= j < |b.lo| && j < |b.hi| ==> b.hi[j] - b.lo[j] <= 0.0
  }

  /** The smallest box holding `b` and `p`: what `extend` leaves in the bounds. */
  function ExtendBox(b: Box, p: Point): (r: Box)
    requires b.Box? ==> |b.lo| == |p| && |b.hi| == |p|
  {
    if b.EmptyBox? then Box(p, p)
    else Box(seq(|p|, j requires 0 <= j < |p| => Min(b.lo[j], p[j])),
             seq(|p|, j requires 0 <= j < |p| => Max(b.hi[j], p[j])))
  }

  /** `extend`: widen the bounds, dimension by dimension, so that they hold `p`. */
  method Extend(b: Box, p: Point) returns (r: Box)
    requires b.Box? ==> |b.lo| == |p| && |b.hi| == |p|
    ensures r == ExtendBox(b, p)
  {
    if b.EmptyBox? {
      return Box(p, p);
    }
    var lo, hi := b.lo, b.hi;
    for j := 0 to |p|
      invariant |lo| == |p| && |hi| == |p|
      invariant forall k :: 0 <= k < j ==> lo[k] == Min(b.lo[k], p[k]) && hi[k] == Max(b.hi[k], p[k])
      invariant forall k :: j <= k < |p| ==> lo[k] == b.lo[k] && hi[k] == b.hi[k]
    {
      if p[j] < lo[j] {
        lo := lo[j := p[j]];
      }
      if p[j] > hi[j] {
        hi := hi[j := p[j]];
      }
    }
    r := Box(lo, hi);
  }

  /** The extended box holds the new point, holds the old box and stays well formed. */
  lemma ExtendBoxProperties(b: Box, p: Point, dim: nat)
    requires BoxOk(b, dim) && |p| == dim
    ensures InBox(p, ExtendBox(b, p))
    ensures BoxWithin(b, ExtendBox(b, p))
    ensures BoxOk(ExtendBox(b, p), dim)
  {
  }

  /** Bounds never shrink: a point inside the old box is inside the extended one. */
  lemma ExtendKeepsPoints(b: Box, p: Point, q: Point)
    requires b.Box? ==> |b.lo| == |p| && |b.hi| == |p|
    requires InBox(q, b)
    ensures InBox(q, ExtendBox(b, p))
  {
  }

  /** The extended box is the least box holding the old box and the point. */
  lemma ExtendBoxIsLeast(b: Box, p: Point, c: Box)
    requires b.Box? ==> |b.lo| == |p| && |b.hi| == |p|
    requires BoxWithin(b, c) && InBox(p, c)
    ensures BoxWithin(ExtendBox(b, p), c)
  {
  }

  /** A degenerate well-formed box holds at most one point. */
  lemma DegenerateHoldsOnePoint(b: Box, p: Point, q: Point)
    requires Degenerate(b) && InBox(p, b) && InBox(q, b)
    ensures p == q
  {
    assert |p| == |q|;
    forall j | 0 <= j < |p| ensures p[j] == q[j] {
      assert b.hi[j] - b.lo[j] <= 0.0;
    }
  }

  /** The extent `max - min` of dimension `j`. */
  function Extent(b: Box, j: nat): real
    requires b.Box? && j < |b.lo| && j < |b.hi|
  {
    b.hi[j] - b.lo[j]
  }

  /**
    `d` is the dimension `split` picks: the first one whose extent is
    positive and strictly greater than the extents of all earlier dimensions,
    and not smaller than any later one.
   */
  ghost predicate IsSplitDimension(b: Box, d: nat)
  {
    b.Box? && d < |b.lo| && |b.lo| == |b.hi| &&
    Extent(b, d) > 0.0 &&
    (forall j :: 0 <= j < d ==> Extent(b, j) < Extent(b, d)) &&
    (forall j :: d < j < |b.lo| ==> Extent(b, j) <= Extent(b, d))
  }

  /** The dimension selection loop of `split`. */
  method ChooseSplitDimension(b: Box) returns (d: Option<nat>)
    requires b.Box? ==> |b.lo| == |b.hi|
    ensures d.None? <==> Degenerate(b)
    ensures d.Some? ==> IsSplitDimension(b, d.value)
  {
    d := None;
    if b.EmptyBox? {
      return;
    }
    var max := 0.0;
    for j := 0 to |b.lo|
      invariant d.None? ==> max == 0.0 && forall k :: 0 <= k < j ==> b.hi[k] - b.lo[k] <= 0.0
      invariant d.Some? ==> d.value < j && max == Extent(b, d.value) && max > 0.0 &&
                            (forall k :: 0 <= k < d.value ==> Extent(b, k) < max) &&
                            (forall k :: d.value < k < j ==> Extent(b, k) <= max)
    {
      var diff := b.hi[j] - b.lo[j];
      if diff > max {
        max := diff;
        d := Some(j);
      }
    }
    if d.Some? {
      assert b.hi[d.value] - b.lo[d.value] > 0.0;
    }
  }

  /** The split value: the midpoint `min + (max - min) / 2` of dimension `d`. */
  function Midpoint(b: Box, d: nat): real
    requires b.Box? && d < |b.lo| && d < |b.hi|
  {
    b.lo[d] + (b.hi[d] - b.lo[d]) / 2.0
  }

  /** With a positive extent, the minimum lies strictly below the midpoint and the maximum at or above it. */
  lemma MidpointSeparates(b: Box, d: nat)
    requires b.Box? && d < |b.lo| && d < |b.hi| && Extent(b, d) > 0.0
    ensures b.lo[d] < Midpoint(b, d) <= b.hi[d]
  {
  }
}
