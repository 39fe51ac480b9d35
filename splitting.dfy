/**
  The facts behind `split`: hulls, the `swap_remove(0)` order, and why the
  redistribution loop keeps both fresh sides valid and leaves them as
  leaves while entries remain.
 */
module Splitting {
  import opened Geometry
  import opened Nodes
  import opened SplitDefs

  /**
    Appending `e` to a valid leaf and widening its bounds keeps every entry
    inside them, and the appended leaf satisfies what `add_to_bucket`
    promises while it stays within capacity.
   */
  lemma AppendInBox<T>(n: Node<T>, e: Entry<T>, cap: nat, dim: nat)
    requires n.Leaf? && Valid(n, dim, cap) && |e.point| == dim
    ensures BoxOk(ExtendBox(n.box, e.point), dim)
    ensures (n.entries + [e])[..|n.entries|] == n.entries
    ensures forall x | x in multiset(n.entries + [e]) :: |x.point| == dim && InBox(x.point, ExtendBox(n.box, e.point))
  {
    var box := ExtendBox(n.box, e.point);
    ExtendBoxProperties(n.box, e.point, dim);
    var es := n.entries + [e];
    assert es[..|es| - 1] == n.entries;
    forall x | x in multiset(es) ensures |x.point| == dim && InBox(x.point, box) {
      if x != e {
        assert x in Entries(n);
        ExtendKeepsPoints(n.box, e.point, x.point);
      }
    }
  }

  /** A leaf with room for one more entry just grows. */
  lemma AppendFits<T>(n: Node<T>, e: Entry<T>, cap: nat, dim: nat)
    requires n.Leaf? && Valid(n, dim, cap) && |e.point| == dim && |n.entries| + 1 <= cap
    ensures Added(n, e, Leaf(n.size + 1, ExtendBox(n.box, e.point), n.entries + [e]), cap, dim)
  {
    AppendInBox(n, e, cap, dim);
    assert multiset(n.entries + [e]) == multiset(n.entries) + multiset{e};
  }

  /** Each bound of a hull is attained by one of its points. */
  lemma {:induction false} HullAttained<T>(es: seq<Entry<T>>, dim: nat, k: nat)
    requires PointsOfDim(es, dim) && es != [] && k < dim
    ensures exists i :: 0 <= i < |es| && es[i].point[k] == HullOf(es, dim).lo[k]
    ensures exists i :: 0 <= i < |es| && es[i].point[k] == HullOf(es, dim).hi[k]
    decreases |es|
  {
    var n := |es|;
    var init := es[..n - 1];
    var p := es[n - 1].point;
    if init == [] {
      assert es[0].point[k] == HullOf(es, dim).lo[k];
      assert es[0].point[k] == HullOf(es, dim).hi[k];
    } else {
      HullAttained(init, dim, k);
      var b0 := HullOf(init, dim);
      var i0 :| 0 <= i0 < |init| && init[i0].point[k] == b0.lo[k];
      var j0 :| 0 <= j0 < |init| && init[j0].point[k] == b0.hi[k];
      assert HullOf(es, dim).lo[k] == Min(b0.lo[k], p[k]);
      assert HullOf(es, dim).hi[k] == Max(b0.hi[k], p[k]);
      if b0.lo[k] <= p[k] {
        assert es[i0].point[k] == HullOf(es, dim).lo[k];
      } else {
        assert es[n - 1].point[k] == HullOf(es, dim).lo[k];
      }
      if b0.hi[k] >= p[k] {
        assert es[j0].point[k] == HullOf(es, dim).hi[k];
      } else {
        assert es[n - 1].point[k] == HullOf(es, dim).hi[k];
      }
    }
  }

  /** The hull of repetitions of one point is that point. */
  lemma {:induction false} HullOfOnePoint<T>(es: seq<Entry<T>>, dim: nat, p: Point)
    requires |p| == dim && es != []
    requires forall i :: 0 <= i < |es| ==> es[i].point == p
    ensures HullOf(es, dim) == Box(p, p)
    decreases |es|
  {
    var init := es[..|es| - 1];
    if init != [] {
      HullOfOnePoint(init, dim, p);
      var b := ExtendBox(Box(p, p), p);
      assert b.lo == p by {
        forall j | 0 <= j < |p| ensures b.lo[j] == p[j] { }
      }
      assert b.hi == p by {
        forall j | 0 <= j < |p| ensures b.hi[j] == p[j] { }
      }
    }
  }

  /** The hull of a leaf's entries followed by one more point is the leaf's hull extended by that point. */
  lemma HullAppend<T>(es: seq<Entry<T>>, x: Entry<T>, dim: nat)
    requires PointsOfDim(es, dim) && |x.point| == dim
    ensures PointsOfDim(es + [x], dim)
    ensures HullOf(es + [x], dim) == ExtendBox(HullOf(es, dim), x.point)
  {
    assert (es + [x])[..|es|] == es;
  }

  /** `swap_remove(0)`: the first element leaves and the last one takes its place. */
  function SwapRemoveFirst<E>(s: seq<E>): (r: seq<E>)
    requires s != []
    ensures |r| == |s| - 1
    ensures multiset(s) == multiset{s[0]} + multiset(r)
  {
    if |s| == 1 then []
    else
      assert s == [s[0]] + s[1..|s| - 1] + [s[|s| - 1]];
      [s[|s| - 1]] + s[1..|s| - 1]
  }

  /**
    In a split that follows an abandoned one, every entry except the last
    repeats one point; the chosen dimension then separates that point from
    the last one, so entries on the same side share their point.
   */
  lemma SameSideSamePoint<T>(es: seq<Entry<T>>, dim: nat, prev: Box, box: Box, k: nat)
    requires |es| >= 2 && forall i :: 0 <= i < |es| ==> |es[i].point| == dim
    requires BoxOk(prev, dim) && Degenerate(prev)
    requires forall i :: 0 <= i < |es| - 1 ==> InBox(es[i].point, prev)
    requires box == ExtendBox(prev, es[|es| - 1].point)
    requires k < dim && Extent(box, k) > 0.0
    ensures SameSidesShare(es, k, Midpoint(box, k))
  {
    var x := es[0].point;
    var y := es[|es| - 1].point;
    forall i | 0 <= i < |es| - 1 ensures es[i].point == x {
      DegenerateHoldsOnePoint(prev, es[i].point, x);
    }
    assert prev.lo == x && prev.hi == x by {
      assert InBox(x, prev);
      forall j | 0 <= j < dim ensures prev.lo[j] == x[j] && prev.hi[j] == x[j] {
        assert prev.hi[j] - prev.lo[j] <= 0.0;
      }
    }
    var sv := Midpoint(box, k);
    MidpointSeparates(box, k);
    assert box.lo[k] == Min(x[k], y[k]) && box.hi[k] == Max(x[k], y[k]);
    assert (x[k] < sv) != (y[k] < sv);
    forall a, b | a in es && b in es && (a.point[k] < sv <==> b.point[k] < sv)
      ensures a.point == b.point
    {
      var i :| 0 <= i < |es| && es[i] == a;
      var j :| 0 <= j < |es| && es[j] == b;
    }
  }

  /** A side dealt after an abandoned split holds copies of one point, so its bounds stay degenerate. */
  lemma SideDegenerate<T>(es: seq<Entry<T>>, dim: nat, k: nat, sv: real, goesLeft: bool,
                          side: seq<Entry<T>>, x: Entry<T>)
    requires PointsOfDim(side, dim) && |x.point| == dim && k < dim
    requires multiset(side) + multiset{x} <= multiset(es)
    requires forall a | a in multiset(side) :: (a.point[k] < sv) == goesLeft
    requires (x.point[k] < sv) == goesLeft
    requires SameSidesShare(es, k, sv)
    ensures PointsOfDim(side + [x], dim) && Degenerate(HullOf(side + [x], dim))
  {
    var s := side + [x];
    assert x in multiset(es);
    forall i | 0 <= i < |s| ensures s[i].point == x.point {
      if i < |side| {
        assert s[i] in multiset(side);
        assert s[i] in multiset(es);
      }
    }
    HullOfOnePoint(s, dim, x.point);
  }

  /** Entries of the hull attaining its minimum and its maximum in dimension `k`. */
  lemma HullWitnesses<T>(es: seq<Entry<T>>, dim: nat, k: nat) returns (low: Entry<T>, high: Entry<T>)
    requires PointsOfDim(es, dim) && es != [] && k < dim
    ensures low in es && high in es
    ensures low.point[k] == HullOf(es, dim).lo[k] && high.point[k] == HullOf(es, dim).hi[k]
  {
    HullAttained(es, dim, k);
    var i :| 0 <= i < |es| && es[i].point[k] == HullOf(es, dim).lo[k];
    var j :| 0 <= j < |es| && es[j].point[k] == HullOf(es, dim).hi[k];
    low, high := es[i], es[j];
  }

  /** The stem that `split` builds from the dealt children satisfies the tree invariant. */
  lemma StemValid<T>(size: nat, box: Box, es: seq<Entry<T>>, cap: nat, dim: nat, k: nat, sv: real,
                     left: Node<T>, right: Node<T>)
    requires size == |es| && k < dim
    requires BoxOk(box, dim) && forall x | x in multiset(es) :: |x.point| == dim && InBox(x.point, box)
    requires Entries(left) + Entries(right) == multiset(es)
    requires Valid(left, dim, cap) && Valid(right, dim, cap)
    requires forall x | x in Entries(left) :: x.point[k] < sv
    requires forall x | x in Entries(right) :: x.point[k] >= sv
    ensures Valid(Stem(size, box, k, sv, left, right), dim, cap)
    ensures Entries(Stem(size, box, k, sv, left, right)) == multiset(es)
  {
  }

  /** Dealing the first remaining entry to the left side keeps the record of the deal. */
  lemma DealtLeft<T>(es: seq<Entry<T>>, dim: nat, k: nat, sv: real, ls: seq<Entry<T>>, rs: seq<Entry<T>>,
                     before: seq<Entry<T>>)
    requires Dealt(es, dim, k, sv, ls, rs, multiset(before)) && before != []
    requires |before[0].point| == dim && k < dim && before[0].point[k] < sv
    ensures Dealt(es, dim, k, sv, ls + [before[0]], rs, multiset(SwapRemoveFirst(before)))
  {
    assert multiset(ls + [before[0]]) == multiset(ls) + multiset{before[0]};
  }

  /** Dealing the first remaining entry to the right side keeps the record of the deal. */
  lemma DealtRight<T>(es: seq<Entry<T>>, dim: nat, k: nat, sv: real, ls: seq<Entry<T>>, rs: seq<Entry<T>>,
                      before: seq<Entry<T>>)
    requires Dealt(es, dim, k, sv, ls, rs, multiset(before)) && before != []
    requires |before[0].point| == dim && k < dim && before[0].point[k] >= sv
    ensures Dealt(es, dim, k, sv, ls, rs + [before[0]], multiset(SwapRemoveFirst(before)))
  {
    assert multiset(rs + [before[0]]) == multiset(rs) + multiset{before[0]};
  }

  /**
    While entries remain, both sides are leaves with the hull of their
    entries as bounds, the first remaining entry has dimension `dim`, and
    the side it goes to holds fewer entries than the leaf being split;
    strictly fewer with tight bounds.
   */
  lemma DealStepBound<T>(es: seq<Entry<T>>, dim: nat, cap: nat, k: nat, sv: real, fits: bool, tight: bool,
                         lowIn: Entry<T>, highIn: Entry<T>, ls: seq<Entry<T>>, rs: seq<Entry<T>>,
                         before: seq<Entry<T>>, left: Node<T>, right: Node<T>)
    requires DealSetting(es, dim, cap, k, sv, fits, tight, lowIn, highIn)
    requires Dealing(es, dim, cap, k, sv, ls, rs, before, left, right) && before != []
    ensures |before[0].point| == dim
    ensures left == LeafOf(ls, dim) && right == LeafOf(rs, dim)
    ensures var side := if before[0].point[k] < sv then ls else rs;
      |side| + 1 <= |es| && (tight ==> |side| + 1 < |es|)
  {
    var x := before[0];
    DealtCount(es, dim, k, sv, ls, rs, before);
    assert x in multiset(es);
    if tight {
      var y := if x.point[k] < sv then highIn else lowIn;
      var other := if x.point[k] < sv then rs else ls;
      assert y in multiset(before) + multiset(ls) + multiset(rs);
      if y in before {
        var i :| 0 <= i < |before| && before[i] == y;
        assert i != 0;
      } else {
        assert y in other;
      }
    }
  }

  /** The dealt and the remaining entries add up to the entries of the leaf being split. */
  lemma DealtCount<T>(es: seq<Entry<T>>, dim: nat, k: nat, sv: real, ls: seq<Entry<T>>, rs: seq<Entry<T>>,
                      rest: seq<Entry<T>>)
    requires Dealt(es, dim, k, sv, ls, rs, multiset(rest))
    ensures |rest| + |ls| + |rs| == |es|
  {
    assert |multiset(rest) + multiset(ls) + multiset(rs)| == |multiset(es)|;
  }

  /**
    What `add_to_bucket` makes of the leaf of `side`: the leaf of `side + [x]`
    when it stays within capacity or its bounds have no positive extent.
   */
  lemma GrownLeaf<T>(side: seq<Entry<T>>, x: Entry<T>, dim: nat, cap: nat, child: Node<T>, grown: Node<T>)
    requires PointsOfDim(side, dim) && |x.point| == dim
    requires child == LeafOf(side, dim) && Added(child, x, grown, cap, dim)
    ensures PointsOfDim(side + [x], dim) && Entries(grown) == multiset(side + [x])
    ensures |side| + 1 <= cap || Degenerate(HullOf(side + [x], dim)) ==> grown == LeafOf(side + [x], dim)
  {
    HullAppend(side, x, dim);
    assert multiset(side + [x]) == multiset(side) + multiset{x};
  }

  /**
    While entries remain after `x`, the side `x` goes to stays a leaf: it is
    within capacity when the leaf being split held at most one entry too
    many, and it holds copies of one point otherwise.
   */
  lemma SideStaysLeaf<T>(es: seq<Entry<T>>, dim: nat, cap: nat, k: nat, sv: real, fits: bool, tight: bool,
                         lowIn: Entry<T>, highIn: Entry<T>, ls: seq<Entry<T>>, rs: seq<Entry<T>>,
                         before: seq<Entry<T>>, goesLeft: bool)
    requires DealSetting(es, dim, cap, k, sv, fits, tight, lowIn, highIn)
    requires Dealt(es, dim, k, sv, ls, rs, multiset(before)) && before != []
    requires |before[0].point| == dim && goesLeft == (before[0].point[k] < sv)
    ensures var side := if goesLeft then ls else rs;
      PointsOfDim(side + [before[0]], dim) &&
      (SwapRemoveFirst(before) != [] ==> |side| + 1 <= cap || Degenerate(HullOf(side + [before[0]], dim)))
  {
    var x, rest := before[0], multiset(SwapRemoveFirst(before));
    var side, other := if goesLeft then ls else rs, if goesLeft then rs else ls;
    HullAppend(side, x, dim);
    if !fits {
      assert multiset(side) + multiset{x} <= multiset(es);
      SideDegenerate(es, dim, k, sv, goesLeft, side, x);
    } else {
      DealtCount(es, dim, k, sv, ls, rs, before);
    }
  }

  /** Adding the first remaining entry to the left leaf advances the loop invariant. */
  lemma DealLeft<T>(es: seq<Entry<T>>, dim: nat, cap: nat, k: nat, sv: real, fits: bool, tight: bool,
                    lowIn: Entry<T>, highIn: Entry<T>, ls: seq<Entry<T>>, rs: seq<Entry<T>>,
                    before: seq<Entry<T>>, left: Node<T>, right: Node<T>, grown: Node<T>)
    requires DealSetting(es, dim, cap, k, sv, fits, tight, lowIn, highIn)
    requires Dealing(es, dim, cap, k, sv, ls, rs, before, left, right) && before != []
    requires |before[0].point| == dim && before[0].point[k] < sv
    requires Added(left, before[0], grown, cap, dim)
    ensures Dealing(es, dim, cap, k, sv, ls + [before[0]], rs, SwapRemoveFirst(before), grown, right)
  {
    SideStaysLeaf(es, dim, cap, k, sv, fits, tight, lowIn, highIn, ls, rs, before, true);
    GrownLeaf(ls, before[0], dim, cap, left, grown);
    DealtLeft(es, dim, k, sv, ls, rs, before);
  }

  /** Adding the first remaining entry to the right leaf advances the loop invariant. */
  lemma DealRight<T>(es: seq<Entry<T>>, dim: nat, cap: nat, k: nat, sv: real, fits: bool, tight: bool,
                     lowIn: Entry<T>, highIn: Entry<T>, ls: seq<Entry<T>>, rs: seq<Entry<T>>,
                     before: seq<Entry<T>>, left: Node<T>, right: Node<T>, grown: Node<T>)
    requires DealSetting(es, dim, cap, k, sv, fits, tight, lowIn, highIn)
    requires Dealing(es, dim, cap, k, sv, ls, rs, before, left, right) && before != []
    requires |before[0].point| == dim && before[0].point[k] >= sv
    requires Added(right, before[0], grown, cap, dim)
    ensures Dealing(es, dim, cap, k, sv, ls, rs + [before[0]], SwapRemoveFirst(before), left, grown)
  {
    SideStaysLeaf(es, dim, cap, k, sv, fits, tight, lowIn, highIn, ls, rs, before, false);
    GrownLeaf(rs, before[0], dim, cap, right, grown);
    DealtRight(es, dim, k, sv, ls, rs, before);
  }

  /** With no entries left, the sides hold the leaf's entries between them, each on its side of `sv`. */
  lemma DealDone<T>(es: seq<Entry<T>>, dim: nat, cap: nat, k: nat, sv: real,
                    ls: seq<Entry<T>>, rs: seq<Entry<T>>, left: Node<T>, right: Node<T>)
    requires Dealing(es, dim, cap, k, sv, ls, rs, [], left, right)
    ensures Entries(left) + Entries(right) == multiset(es)
    ensures Valid(left, dim, cap) && Valid(right, dim, cap)
    ensures OnSide(left, k, sv, true) && OnSide(right, k, sv, false)
  {
    var none: seq<Entry<T>> := [];
    assert multiset(none) == multiset{};
  }

  /** A stem that routed a new entry into one child and widened its bounds stays valid and counts the entry. */
  lemma StemAdded<T>(n: Node<T>, e: Entry<T>, r: Node<T>, cap: nat, dim: nat)
    requires n.Stem? && Valid(n, dim, cap) && |e.point| == dim
    requires r.size == n.size + 1 && r.box == ExtendBox(n.box, e.point)
    requires Routed(n, e, r)
    requires Valid(r.left, dim, cap) && Valid(r.right, dim, cap)
    ensures Valid(r, dim, cap) && Entries(r) == Entries(n) + multiset{e}
  {
    RoutedEntries(n, e, r);
    RoutedPartition(n, e, r);
    WidenedInBox(n, e, r, dim);
    StemOk(r, dim, cap);
  }

  /** The stem that routed `e` holds its old entries and `e`. */
  lemma RoutedEntries<T>(n: Node<T>, e: Entry<T>, r: Node<T>)
    requires n.Stem? && n.splitDim < |e.point| && Routed(n, e, r)
    ensures Entries(r) == Entries(n) + multiset{e}
  {
    if e.point[n.splitDim] < n.splitValue {
      calc {
        Entries(r);
        Entries(r.left) + Entries(n.right);
        Entries(n.left) + multiset{e} + Entries(n.right);
      }
    } else {
      calc {
        Entries(r);
        Entries(n.left) + Entries(r.right);
        Entries(n.left) + (Entries(n.right) + multiset{e});
      }
    }
  }

  /** The stem that routed `e` by the strict-less rule still partitions its entries. */
  lemma RoutedPartition<T>(n: Node<T>, e: Entry<T>, r: Node<T>)
    requires n.Stem? && n.splitDim < |e.point| && Routed(n, e, r)
    requires forall x | x in Entries(n.left) :: n.splitDim < |x.point| && x.point[n.splitDim] < n.splitValue
    requires forall x | x in Entries(n.right) :: n.splitDim < |x.point| && x.point[n.splitDim] >= n.splitValue
    ensures forall x | x in Entries(r.left) :: n.splitDim < |x.point| && x.point[r.splitDim] < r.splitValue
    ensures forall x | x in Entries(r.right) :: n.splitDim < |x.point| && x.point[r.splitDim] >= r.splitValue
  {
  }

  /** Every entry of a node that gained `e` lies in the bounds widened by `e`. */
  lemma WidenedInBox<T>(n: Node<T>, e: Entry<T>, r: Node<T>, dim: nat)
    requires BoxOk(n.box, dim) && EntriesInBox(n, dim) && |e.point| == dim
    requires r.box == ExtendBox(n.box, e.point) && Entries(r) == Entries(n) + multiset{e}
    ensures BoxOk(r.box, dim) && EntriesInBox(r, dim)
  {
    ExtendBoxProperties(n.box, e.point, dim);
    forall x | x in Entries(r) ensures |x.point| == dim && InBox(x.point, r.box) {
      if x != e {
        assert x in Entries(n);
        ExtendKeepsPoints(n.box, e.point, x.point);
      }
    }
  }
}
