/**
  Insertion: `add`, `add_unchecked`, `add_to_bucket` and `split`.
 */
module Insertion {
  import opened Geometry
  import opened Nodes
  import opened SplitDefs
  import opened Splitting

  /**
    `add_to_bucket`: widen the bounds of the leaf, append the entry, count it,
    and split the leaf once it holds more than `cap` entries. `tight` records
    (for the termination argument only) that the bounds are exactly the hull
    of the entries, as they are in a leaf that a split has just created.
   */
  method AddToBucket<T>(n: Node<T>, e: Entry<T>, cap: nat, dim: nat, ghost tight: bool) returns (r: Node<T>)
    requires n.Leaf? && Valid(n, dim, cap) && |e.point| == dim
    requires tight ==> n.box == HullOf(n.entries, dim)
    ensures Added(n, e, r, cap, dim)
    decreases |n.entries| + 1, if tight then 0 else 1, 2
  {
    var box := Extend(n.box, e.point);
    var es := n.entries + [e];
    var size := n.size + 1;
    AppendInBox(n, e, cap, dim);
    if size > cap {
      r := Split(size, box, es, cap, dim, n.box, tight);
    } else {
      AppendFits(n, e, cap, dim);
      r := Leaf(size, box, es);
    }
  }

  /**
    `split`: choose the dimension of greatest positive extent and split at its
    midpoint, dealing the entries (in `swap_remove(0)` order) into two fresh
    leaves; with no positive extent the leaf is kept as it is. The node keeps
    its `size` and bounds. `prev` is the box before the last entry was added.
   */
  method Split<T>(size: nat, box: Box, es: seq<Entry<T>>, cap: nat, dim: nat, ghost prev: Box, ghost tight: bool)
    returns (r: Node<T>)
    requires size == |es| && |es| > cap
    requires BoxOk(box, dim) && forall x | x in multiset(es) :: |x.point| == dim && InBox(x.point, box)
    requires BoxOk(prev, dim) && box == ExtendBox(prev, es[|es| - 1].point)
    requires forall i :: 0 <= i < |es| - 1 ==> InBox(es[i].point, prev)
    requires |es| > cap + 1 ==> Degenerate(prev)
    requires tight ==> box == HullOf(es, dim)
    ensures Valid(r, dim, cap) && Entries(r) == multiset(es)
    ensures r.size == size && r.box == box
    ensures Degenerate(box) ==> r == Leaf(size, box, es)
    ensures !Degenerate(box) ==>
              r.Stem? && IsSplitDimension(box, r.splitDim) && r.splitValue == Midpoint(box, r.splitDim) &&
              (forall x | x in Entries(r.left) :: x.point[r.splitDim] < r.splitValue) &&
              (forall x | x in Entries(r.right) :: x.point[r.splitDim] >= r.splitValue)
    decreases |es|, if tight then 0 else 1, 1
  {
    var d := ChooseSplitDimension(box);
    if d.None? {
      return Leaf(size, box, es);
    }
    var k := d.value;
    var sv := box.lo[k] + (box.hi[k] - box.lo[k]) / 2.0;
    MidpointSeparates(box, k);
    ghost var fits := |es| <= cap + 1;
    if !fits {
      SameSideSamePoint(es, dim, prev, box, k);
    }
    ghost var lowIn, highIn := es[0], es[0];
    if tight {
      lowIn, highIn := HullWitnesses(es, dim, k);
    }
    var left, right := Deal(es, cap, dim, k, sv, fits, tight, lowIn, highIn);
    StemValid(size, box, es, cap, dim, k, sv, left, right);
    r := Stem(size, box, k, sv, left, right);
  }

  /**
    The redistribution loop of `split`: take entries with `swap_remove(0)`
    and add each to the fresh left leaf if it is strictly below `sv` in
    dimension `k`, to the right one otherwise. `ls` and `rs` record (for
    the proof only) the entries each side received, in order.
   */
  method Deal<T>(es: seq<Entry<T>>, cap: nat, dim: nat, k: nat, sv: real,
                 ghost fits: bool, ghost tight: bool, ghost lowIn: Entry<T>, ghost highIn: Entry<T>)
    returns (left: Node<T>, right: Node<T>)
    requires DealSetting(es, dim, cap, k, sv, fits, tight, lowIn, highIn)
    ensures Entries(left) + Entries(right) == multiset(es)
    ensures Valid(left, dim, cap) && Valid(right, dim, cap)
    ensures OnSide(left, k, sv, true) && OnSide(right, k, sv, false)
    decreases |es|, if tight then 0 else 1, 0
  {
    left, right := EmptyLeaf(), EmptyLeaf();
    ghost var ls: seq<Entry<T>>, rs: seq<Entry<T>> := [], [];
    var rest: seq<Entry<T>> := es;
    while rest != []
      invariant Dealing(es, dim, cap, k, sv, ls, rs, rest, left, right)
      decreases |rest|
    {
      var x := rest[0];
      DealStepBound(es, dim, cap, k, sv, fits, tight, lowIn, highIn, ls, rs, rest, left, right);
      if x.point[k] < sv {
        var grown := AddToBucket(left, x, cap, dim, true);
        DealLeft(es, dim, cap, k, sv, fits, tight, lowIn, highIn, ls, rs, rest, left, right, grown);
        left, ls := grown, ls + [x];
      } else {
        var grown := AddToBucket(right, x, cap, dim, true);
        DealRight(es, dim, cap, k, sv, fits, tight, lowIn, highIn, ls, rs, rest, left, right, grown);
        right, rs := grown, rs + [x];
      }
      rest := SwapRemoveFirst(rest);
    }
    DealDone(es, dim, cap, k, sv, ls, rs, left, right);
  }

  /**
    `add_unchecked`: at a stem, widen the bounds, count the entry and go on
    into the child the point belongs in; at a leaf, `add_to_bucket`.
   */
  method AddUnchecked<T>(n: Node<T>, e: Entry<T>, cap: nat, dim: nat) returns (r: Node<T>)
    requires Valid(n, dim, cap) && |e.point| == dim
    ensures Valid(r, dim, cap)
    ensures Entries(r) == Entries(n) + multiset{e}
    ensures r.size == n.size + 1 && r.box == ExtendBox(n.box, e.point)
    ensures n.Leaf? ==> Added(n, e, r, cap, dim)
    ensures n.Stem? ==> Routed(n, e, r)
    ensures Inserted(n, e, r, cap, dim)
    decreases n
  {
    if n.Leaf? {
      r := AddToBucket(n, e, cap, dim, false);
      return;
    }
    var box := Extend(n.box, e.point);
    var size := n.size + 1;
    if BelongsInLeft(n, e.point) {
      var left := AddUnchecked(n.left, e, cap, dim);
      r := Stem(size, box, n.splitDim, n.splitValue, left, n.right);
    } else {
      var right := AddUnchecked(n.right, e, cap, dim);
      r := Stem(size, box, n.splitDim, n.splitValue, n.left, right);
    }
    StemAdded(n, e, r, cap, dim);
  }

  /**
    `add`: a tree of capacity 0 refuses every entry, then a point with a
    non-finite coordinate is refused; both leave the tree as it was.
    Otherwise the entry is added below the root: a root leaf stays a leaf
    while it holds at most `capacity` entries and splits once it holds
    more over bounds with a positive extent.
   */
  method Add<T>(t: KdTree<T>, point: seq<Coord>, value: T) returns (t': KdTree<T>, res: Result<()>)
    requires ValidTree(t) && |point| == t.dim
    ensures t.capacity == 0 ==> res == Err(ZeroCapacity) && t' == t
    ensures t.capacity != 0 && !AllFinite(point) ==> res == Err(NonFiniteCoordinate) && t' == t
    ensures t.capacity != 0 && AllFinite(point) ==>
              res == Ok(()) && ValidTree(t') && t'.dim == t.dim && t'.capacity == t.capacity &&
              Entries(t'.root) == Entries(t.root) + multiset{Entry(CheckPoint(point).value, value)} &&
              t'.root.size == t.root.size + 1
    ensures t.capacity != 0 && AllFinite(point) && t.root.Leaf? ==>
              Added(t.root, Entry(CheckPoint(point).value, value), t'.root, t.capacity, t.dim)
    ensures t.capacity != 0 && AllFinite(point) && t.root.Stem? ==>
              Routed(t.root, Entry(CheckPoint(point).value, value), t'.root)
    ensures t.capacity != 0 && AllFinite(point) ==>
              Inserted(t.root, Entry(CheckPoint(point).value, value), t'.root, t.capacity, t.dim)
  {
    if t.capacity == 0 {
      return t, Err(ZeroCapacity);
    }
    var checked := CheckPoint(point);
    if checked.Err? {
      return t, Err(checked.error);
    }
    var root := AddUnchecked(t.root, Entry(checked.value, value), t.capacity, t.dim);
    t', res := KdTree(t.dim, t.capacity, root), Ok(());
  }
}
