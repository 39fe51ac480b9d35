/**
  The notions `split` is reasoned about with: the hull of a leaf's entries,
  which side of the split value an entry falls on, and the invariant of the
  loop that deals a full leaf's entries into two fresh leaves.
 */
module SplitDefs {
  import opened Geometry
  import opened Nodes

  /** Every entry of `es` has a point of dimension `dim`. */
  ghost predicate PointsOfDim<T>(es: seq<Entry<T>>, dim: nat)
  {
    forall a | a in es :: |a.point| == dim
  }

  /** The bounds of a fresh leaf after `extend` was called with each point of `es` in turn. */
  ghost function HullOf<T>(es: seq<Entry<T>>, dim: nat): (b: Box)
    requires PointsOfDim(es, dim)
    ensures BoxOk(b, dim)
    ensures es == [] <==> b.EmptyBox?
    decreases |es|
  {
    if es == [] then EmptyBox
    else
      var b0 := HullOf(es[..|es| - 1], dim);
      ExtendBoxProperties(b0, es[|es| - 1].point, dim);
      ExtendBox(b0, es[|es| - 1].point)
  }

  /** Entries of `es` on the same side of `sv` in dimension `k` share their point. */
  ghost predicate SameSidesShare<T>(es: seq<Entry<T>>, k: nat, sv: real)
  {
    forall a, b | a in es && b in es && k < |a.point| && k < |b.point| && (a.point[k] < sv <==> b.point[k] < sv) ::
      a.point == b.point
  }

  /** Every entry below `n` lies strictly below `sv` in dimension `k` when `goesLeft`, at or above it otherwise. */
  ghost predicate OnSide<T>(n: Node<T>, k: nat, sv: real, goesLeft: bool)
  {
    forall x | x in Entries(n) :: k < |x.point| && (x.point[k] < sv) == goesLeft
  }

  /** The leaf that holds `es` in this order, with exactly their hull as bounds. */
  ghost function LeafOf<T>(es: seq<Entry<T>>, dim: nat): Node<T>
    requires PointsOfDim(es, dim)
  {
    Leaf(|es|, HullOf(es, dim), es)
  }

  /**
    What the redistribution loop knows of the entries dealt so far: `ls`
    went left, `rs` went right, `rest` is still to come, and together they
    are the entries of the leaf being split.
   */
  ghost predicate Dealt<T>(es: seq<Entry<T>>, dim: nat, k: nat, sv: real,
                           ls: seq<Entry<T>>, rs: seq<Entry<T>>, rest: multiset<Entry<T>>)
  {
    PointsOfDim(ls, dim) && PointsOfDim(rs, dim) &&
    rest + multiset(ls) + multiset(rs) == multiset(es) &&
    (forall a | a in ls :: k < |a.point| && a.point[k] < sv) &&
    (forall a | a in rs :: k < |a.point| && a.point[k] >= sv)
  }

  /**
    The invariant of the redistribution loop: the record of the deal, two
    valid sides holding exactly the entries dealt to them, and, while
    entries remain, each side still the leaf of its entries.
   */
  ghost predicate Dealing<T>(es: seq<Entry<T>>, dim: nat, cap: nat, k: nat, sv: real,
                             ls: seq<Entry<T>>, rs: seq<Entry<T>>, rest: seq<Entry<T>>, left: Node<T>, right: Node<T>)
  {
    Dealt(es, dim, k, sv, ls, rs, multiset(rest)) &&
    Valid(left, dim, cap) && Valid(right, dim, cap) &&
    Entries(left) == multiset(ls) && Entries(right) == multiset(rs) &&
    (rest != [] ==> left == LeafOf(ls, dim) && right == LeafOf(rs, dim))
  }

  /**
    The setting of the redistribution loop: all points have dimension `dim`;
    `fits` says the leaf holds at most one entry more than its capacity, and
    otherwise entries on the same side of `sv` coincide; with `tight` bounds
    the entries `lowIn` and `highIn` lie on either side.
   */
  ghost predicate DealSetting<T>(es: seq<Entry<T>>, dim: nat, cap: nat, k: nat, sv: real,
                                 fits: bool, tight: bool, lowIn: Entry<T>, highIn: Entry<T>)
  {
    k < dim && PointsOfDim(es, dim) &&
    (fits ==> |es| <= cap + 1) &&
    (!fits ==> SameSidesShare(es, k, sv)) &&
    (tight ==> lowIn in es && lowIn.point[k] < sv && highIn in es && highIn.point[k] >= sv)
  }

  /** What `add_to_bucket` guarantees: the entry is stored, counted and inside the widened bounds. */
  ghost predicate Added<T>(n: Node<T>, e: Entry<T>, r: Node<T>, cap: nat, dim: nat)
  {
    n.Leaf? && |e.point| == dim && BoxOk(n.box, dim) &&
    Valid(r, dim, cap) && Entries(r) == Entries(n) + multiset{e} &&
    r.size == n.size + 1 && r.box == ExtendBox(n.box, e.point) &&
    (|n.entries| + 1 <= cap || Degenerate(r.box) ==> r == Leaf(n.size + 1, r.box, n.entries + [e])) &&
    (|n.entries| + 1 > cap && !Degenerate(r.box) ==> r.Stem?)
  }

  /**
    What `add_unchecked` does at a stem: the split is kept, the entry goes to
    the left child iff it lies strictly below the split value, and the
    other child is untouched.
   */
  ghost predicate Routed<T>(n: Node<T>, e: Entry<T>, r: Node<T>)
    requires n.Stem? && n.splitDim < |e.point|
  {
    r.Stem? && r.splitDim == n.splitDim && r.splitValue == n.splitValue &&
    if e.point[n.splitDim] < n.splitValue then
      r.right == n.right && Entries(r.left) == Entries(n.left) + multiset{e}
    else
      r.left == n.left && Entries(r.right) == Entries(n.right) + multiset{e}
  }

  /**
    What `add_unchecked` does along the whole path: every node on it gains
    one in `size` and widens its bounds to hold the point, every stem keeps
    its split and leaves the child off the path untouched, and the leaf at
    the end is updated by `add_to_bucket`.
   */
  ghost predicate Inserted<T>(n: Node<T>, e: Entry<T>, r: Node<T>, cap: nat, dim: nat)
    requires Valid(n, dim, cap) && |e.point| == dim
    decreases n
  {
    r.size == n.size + 1 && r.box == ExtendBox(n.box, e.point) &&
    (n.Leaf? ==> Added(n, e, r, cap, dim)) &&
    (n.Stem? ==>
       Routed(n, e, r) &&
       if e.point[n.splitDim] < n.splitValue then Inserted(n.left, e, r.left, cap, dim)
       else Inserted(n.right, e, r.right, cap, dim))
  }
}
