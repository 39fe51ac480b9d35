/**
  The node of the k-d tree. In the source one struct plays both roles: a leaf
  holds `points`/`bucket` and no split data, a stem holds `split_dimension`,
  `split_value`, `left` and `right`. Here the two roles are the two variants
  of one datatype; both carry `size` and the bounds.
 */
module Nodes {
  import opened Geometry

  /** A stored (point, value) pair: one slot of the parallel `points`/`bucket` vectors. */
  datatype Entry<T> = Entry(point: Point, value: T)

  datatype Node<T> =
    | Leaf(size: nat, box: Box, entries: seq<Entry<T>>)
    | Stem(size: nat, box: Box, splitDim: nat, splitValue: real, left: Node<T>, right: Node<T>)

  /** The tree as its owner sees it: the dimension `D`, the leaf capacity and the root. */
  datatype KdTree<T> = KdTree(dim: nat, capacity: nat, root: Node<T>)

  /** The entries stored in the subtree rooted at `n`. */
  ghost function Entries<T>(n: Node<T>): multiset<Entry<T>>
  {
    match n
    case Leaf(_, _, es) => multiset(es)
    case Stem(_, _, _, _, l, r) => Entries(l) + Entries(r)
  }

  /** `belongs_in_left`: a point goes left iff it is strictly below the split value. */
  predicate BelongsInLeft<T>(n: Node<T>, p: Point)
    requires n.Stem? && n.splitDim < |p|
  {
    p[n.splitDim] < n.splitValue
  }

  /** Every entry below `n` has dimension `dim` and lies inside the bounds of `n`. */
  ghost predicate EntriesInBox<T>(n: Node<T>, dim: nat)
  {
    forall e | e in Entries(n) :: |e.point| == dim && InBox(e.point, n.box)
  }

  /**
    The tree invariant: `size` counts the entries below the node, the bounds
    hold every entry, a stem partitions its entries by the strict-less rule,
    and a leaf holds more than `cap` entries only when its bounds have no
    positive extent (a split that was abandoned).
   */
  ghost predicate Valid<T>(n: Node<T>, dim: nat, cap: nat)
    decreases n
  {
    BoxOk(n.box, dim) && n.size == |Entries(n)| && EntriesInBox(n, dim) &&
    match n
    case Leaf(_, box, es) => |es| > cap ==> Degenerate(box)
    case Stem(_, _, d, v, l, r) =>
      d < dim && Valid(l, dim, cap) && Valid(r, dim, cap) &&
      (forall e | e in Entries(l) :: e.point[d] < v) &&
      (forall e | e in Entries(r) :: e.point[d] >= v)
  }

  ghost predicate ValidTree<T>(t: KdTree<T>)
  {
    Valid(t.root, t.dim, t.capacity)
  }

  /** The fresh leaf that `with_capacity` builds: no entries, empty bounds. */
  function EmptyLeaf<T>(): (n: Node<T>)
    ensures forall dim, cap :: Valid(n, dim, cap)
    ensures Entries(n) == multiset{}
  {
    Leaf(0, EmptyBox, [])
  }

  /** `with_capacity`. */
  function WithCapacity<T>(dim: nat, capacity: nat): (t: KdTree<T>)
    ensures ValidTree(t) && t.dim == dim && t.capacity == capacity
    ensures Entries(t.root) == multiset{} && t.root.Leaf?
  {
    KdTree(dim, capacity, EmptyLeaf())
  }

  /** `new`: the default leaf capacity is 2^4 = 16. */
  function New<T>(dim: nat): (t: KdTree<T>)
    ensures ValidTree(t) && t.dim == dim && t.capacity == 16
    ensures Entries(t.root) == multiset{}
  {
    WithCapacity(dim, 16)
  }

  /** `size`: the counter equals the number of stored entries. */
  function Size<T>(t: KdTree<T>): (n: nat)
    requires ValidTree(t)
    ensures n == |Entries(t.root)|
  {
    t.root.size
  }

  /** A stem is valid when its own bookkeeping is right, its children are valid and it partitions its entries. */
  lemma StemOk<T>(s: Node<T>, dim: nat, cap: nat)
    requires s.Stem? && s.splitDim < dim && BoxOk(s.box, dim) && s.size == |Entries(s)| && EntriesInBox(s, dim)
    requires Valid(s.left, dim, cap) && Valid(s.right, dim, cap)
    requires forall x | x in Entries(s.left) :: x.point[s.splitDim] < s.splitValue
    requires forall x | x in Entries(s.right) :: x.point[s.splitDim] >= s.splitValue
    ensures Valid(s, dim, cap)
  {
  }

  /** An oversized leaf holds a single point, repeated. */
  lemma OversizedLeafRepeatsOnePoint<T>(n: Node<T>, dim: nat, cap: nat, a: Entry<T>, b: Entry<T>)
    requires n.Leaf? && Valid(n, dim, cap) && |n.entries| > cap
    requires a in n.entries && b in n.entries
    ensures a.point == b.point
  {
    assert a in Entries(n) && b in Entries(n);
    DegenerateHoldsOnePoint(n.box, a.point, b.point);
  }
}
