/**
  The notions `remove` is specified with: a leaf's entries with every copy
  of a pair taken out, and the node that removal leaves behind.
 */
module RemovalDefs {
  import opened Nodes

  /** `es` with every copy of `x` taken out, the others kept in order. */
  function Without<T(==)>(es: seq<Entry<T>>, x: Entry<T>): (r: seq<Entry<T>>)
    ensures multiset(r) == multiset(es)[x := 0]
    ensures |r| == |es| - multiset(es)[x]
    decreases |es|
  {
    if es == [] then []
    else
      var init, last := es[..|es| - 1], es[|es| - 1];
      assert es == init + [last];
      var r0 := Without(init, x);
      if last == x then r0 else r0 + [last]
  }

  /**
    The accounting of the deletion loop at a leaf: `kept` has the same
    entries other than `x` as `es`, in the same order, and `removed` copies
    of `x` are gone.
   */
  ghost predicate Deleting<T>(es: seq<Entry<T>>, kept: seq<Entry<T>>, removed: nat, x: Entry<T>)
  {
    Without(kept, x) == Without(es, x) && removed + multiset(kept)[x] == multiset(es)[x]
  }

  /** Every `size` below `n` counts the entries below it: all that `remove` needs of its input. */
  ghost predicate Counted<T>(n: Node<T>)
    decreases n
  {
    n.size == |Entries(n)| && (n.Stem? ==> Counted(n.left) && Counted(n.right))
  }

  /** The tree invariant includes the counting part. */
  lemma {:induction false} ValidCounted<T>(n: Node<T>, dim: nat, cap: nat)
    requires Valid(n, dim, cap)
    ensures Counted(n)
    decreases n
  {
    if n.Stem? {
      ValidCounted(n.left, dim, cap);
      ValidCounted(n.right, dim, cap);
    }
  }

  /**
    The node `remove` leaves below `n`: every leaf loses its copies of `x`,
    every `size` drops by the copies below it, and bounds, split dimensions
    and split values stay as they are.
   */
  ghost function Pruned<T>(n: Node<T>, x: Entry<T>): Node<T>
    requires Counted(n)
    decreases n
  {
    match n
    case Leaf(size, box, es) =>
      CountBound(multiset(es), x);
      Leaf(size - multiset(es)[x], box, Without(es, x))
    case Stem(size, box, d, v, l, r) =>
      StemCounts(n, x);
      Stem(size - Entries(r)[x] - Entries(l)[x], box, d, v, Pruned(l, x), Pruned(r, x))
  }

  /** A multiset holds no more copies of `x` than elements. */
  lemma {:induction false} CountBound<E>(m: multiset<E>, x: E)
    ensures m[x] <= |m|
    decreases m[x]
  {
    if m[x] > 0 {
      var m' := m - multiset{x};
      CountBound(m', x);
      assert m == m' + multiset{x};
    }
  }

  /** The copies of `x` below a stem are those in its children, and no more than its `size`. */
  lemma StemCounts<T>(n: Node<T>, x: Entry<T>)
    requires n.Stem? && Counted(n)
    ensures Entries(n.right)[x] + Entries(n.left)[x] <= n.size
  {
    CountBound(Entries(n), x);
  }
}
