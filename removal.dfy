/**
  Removal: `remove` deletes every stored entry equal to a given (point,
  value) pair and reports how many it deleted. Bounds are never shrunk.
 */
module Removal {
  import opened Geometry
  import opened Nodes
  import opened RemovalDefs

  /** Taking copies of `x` out of a concatenation takes them out of each part. */
  lemma {:induction false} WithoutAppend<T>(a: seq<Entry<T>>, b: seq<Entry<T>>, x: Entry<T>)
    ensures Without(a + b, x) == Without(a, x) + Without(b, x)
    decreases |b|
  {
    if b == [] {
      assert a + b == a;
    } else {
      var init, last := b[..|b| - 1], b[|b| - 1];
      assert (a + b)[..|a + b| - 1] == a + init;
      assert (a + b)[|a + b| - 1] == last;
      WithoutAppend(a, init, x);
    }
  }

  /** A sequence without `x` is its own `Without`. */
  lemma {:induction false} WithoutAbsent<T>(es: seq<Entry<T>>, x: Entry<T>)
    requires x !in es
    ensures Without(es, x) == es
    decreases |es|
  {
    if es != [] {
      var init := es[..|es| - 1];
      WithoutAbsent(init, x);
      assert es == init + [es[|es| - 1]];
    }
  }

  /** Deleting one copy of `x` does not change what is left once all copies are gone. */
  lemma DeleteCopy<T>(es: seq<Entry<T>>, i: nat, x: Entry<T>)
    requires i < |es| && es[i] == x
    ensures Without(es[..i] + es[i + 1..], x) == Without(es, x)
    ensures multiset(es[..i] + es[i + 1..])[x] + 1 == multiset(es)[x]
  {
    var a, b := es[..i], es[i + 1..];
    assert es == (a + [x]) + b;
    WithoutAppend(a + [x], b, x);
    WithoutLast(a, x, x);
    WithoutAppend(a, b, x);
    assert multiset(es) == multiset(a + b) + multiset{x};
  }

  /** `Without` on a sequence ending in `y`. */
  lemma WithoutLast<T>(a: seq<Entry<T>>, y: Entry<T>, x: Entry<T>)
    ensures Without(a + [y], x) == if y == x then Without(a, x) else Without(a, x) + [y]
  {
    assert (a + [y])[..|a|] == a;
  }

  /** `iter().position`: the first index holding `x`, if any. */
  function Position<T(==)>(es: seq<Entry<T>>, x: Entry<T>): (r: Option<nat>)
    ensures r.None? <==> x !in es
    ensures r.Some? ==> r.value < |es| && es[r.value] == x && x !in es[..r.value]
  {
    if x !in es then None
    else
      var i :| 0 <= i < |es| && es[i] == x;
      FirstIndex(es, x, i)
  }

  /** The first index holding `x`, at most `bound`. */
  function FirstIndex<T(==)>(es: seq<Entry<T>>, x: Entry<T>, bound: nat): (r: Option<nat>)
    requires bound < |es| && es[bound] == x
    ensures r.Some? && r.value <= bound && es[r.value] == x && x !in es[..r.value]
    decreases bound
  {
    if x !in es[..bound] then Some(bound)
    else
      var j :| 0 <= j < bound && es[j] == x;
      FirstIndex(es, x, j)
  }

  /**
    The deletion loop of `remove` at a leaf, with the search matching the
    whole (point, value) pair: find the first such entry, delete it with
    `Vec::remove` (which keeps the order of the others) and count it, until
    none is left.
   */
  method RemoveFromLeaf<T(==)>(es: seq<Entry<T>>, x: Entry<T>) returns (kept: seq<Entry<T>>, removed: nat)
    ensures kept == Without(es, x)
    ensures removed == multiset(es)[x]
  {
    kept, removed := es, 0;
    var i := Position(kept, x);
    while i.Some?
      invariant Deleting(es, kept, removed, x)
      invariant i == Position(kept, x)
      decreases |kept|
    {
      DeleteStep(es, kept, removed, i.value, x);
      kept := kept[..i.value] + kept[i.value + 1..];
      removed := removed + 1;
      i := Position(kept, x);
    }
    DeletingDone(es, kept, removed, x);
  }

  /** Deleting one more copy of `x` keeps the accounting of the deletion loop. */
  lemma DeleteStep<T>(es: seq<Entry<T>>, kept: seq<Entry<T>>, removed: nat, i: nat, x: Entry<T>)
    requires Deleting(es, kept, removed, x) && i < |kept| && kept[i] == x
    ensures Deleting(es, kept[..i] + kept[i + 1..], removed + 1, x)
    ensures |kept[..i] + kept[i + 1..]| < |kept|
  {
    DeleteCopy(kept, i, x);
  }

  /** Once no copy of `x` is left, the loop has deleted them all. */
  lemma DeletingDone<T>(es: seq<Entry<T>>, kept: seq<Entry<T>>, removed: nat, x: Entry<T>)
    requires Deleting(es, kept, removed, x) && x !in kept
    ensures kept == Without(es, x) && removed == multiset(es)[x]
  {
    WithoutAbsent(kept, x);
    assert multiset(kept)[x] == 0;
  }

  /**
    `remove` below a node: at a leaf the deletion loop, at a stem the right
    child and then the left one, each count subtracted from `size` when it
    is not zero.
   */
  method RemoveFrom<T(==)>(n: Node<T>, x: Entry<T>) returns (r: Node<T>, removed: nat)
    requires Counted(n)
    ensures r == Pruned(n, x) && removed == Entries(n)[x]
    decreases n
  {
    if n.Leaf? {
      var kept, count := RemoveFromLeaf(n.entries, x);
      CountBound(multiset(n.entries), x);
      return Leaf(n.size - count, n.box, kept), count;
    }
    PrunedStem(n, x);
    removed := 0;
    var size := n.size;
    var right, rightRemoved := RemoveFrom(n.right, x);
    if rightRemoved > 0 {
      size := size - rightRemoved;
      removed := removed + rightRemoved;
    }
    assert size == n.size - rightRemoved && removed == rightRemoved;
    var left, leftRemoved := RemoveFrom(n.left, x);
    if leftRemoved > 0 {
      size := size - leftRemoved;
      removed := removed + leftRemoved;
    }
    assert size == n.size - rightRemoved - leftRemoved && removed == rightRemoved + leftRemoved;
    r := Stem(size, n.box, n.splitDim, n.splitValue, left, right);
  }

  /** One step of `Pruned` at a stem, with the copies below it counted child by child. */
  lemma PrunedStem<T>(n: Node<T>, x: Entry<T>)
    requires n.Stem? && Counted(n)
    ensures Entries(n.right)[x] + Entries(n.left)[x] <= n.size
    ensures Entries(n)[x] == Entries(n.right)[x] + Entries(n.left)[x]
    ensures Pruned(n, x) ==
            Stem(n.size - Entries(n.right)[x] - Entries(n.left)[x], n.box, n.splitDim, n.splitValue,
                 Pruned(n.left, x), Pruned(n.right, x))
  {
    StemCounts(n, x);
    assert Entries(n) == Entries(n.left) + Entries(n.right);
  }

  /**
    What `remove` leaves below a valid node is valid, holds exactly the
    entries other than `x`, has `size` lowered by the number of copies of
    `x` and keeps the bounds.
   */
  ghost predicate PrunedOk<T>(n: Node<T>, x: Entry<T>, dim: nat, cap: nat)
    requires Counted(n)
  {
    var r := Pruned(n, x);
    Valid(r, dim, cap) && Entries(r) == Entries(n)[x := 0] && r.size == n.size - Entries(n)[x] && r.box == n.box
  }

  /** `remove` keeps the tree invariant and takes out exactly the copies of `x`. */
  lemma {:induction false} PrunedValid<T>(n: Node<T>, x: Entry<T>, dim: nat, cap: nat)
    requires Valid(n, dim, cap)
    ensures Counted(n)
    ensures Valid(Pruned(n, x), dim, cap)
    ensures Entries(Pruned(n, x)) == Entries(n)[x := 0]
    ensures Pruned(n, x).size == n.size - Entries(n)[x]
    ensures Pruned(n, x).box == n.box
    decreases n
  {
    ValidCounted(n, dim, cap);
    if n.Leaf? {
      PrunedLeafOk(n, x, dim, cap);
    } else {
      PrunedValid(n.left, x, dim, cap);
      PrunedValid(n.right, x, dim, cap);
      PrunedStemOk(n, x, dim, cap);
    }
  }

  lemma PrunedLeafOk<T>(n: Node<T>, x: Entry<T>, dim: nat, cap: nat)
    requires n.Leaf? && Valid(n, dim, cap) && Counted(n)
    ensures PrunedOk(n, x, dim, cap)
  {
    DropAll(Entries(n), x);
  }

  lemma PrunedStemOk<T>(n: Node<T>, x: Entry<T>, dim: nat, cap: nat)
    requires n.Stem? && Valid(n, dim, cap) && Counted(n)
    requires PrunedOk(n.left, x, dim, cap) && PrunedOk(n.right, x, dim, cap)
    ensures PrunedOk(n, x, dim, cap)
  {
    PrunedStem(n, x);
    PrunedStemEntries(n, x);
    StemOk(Pruned(n, x), dim, cap);
  }

  /** At a stem, the entries left are those left in the children, and fewer than before by the copies of `x`. */
  lemma PrunedStemEntries<T>(n: Node<T>, x: Entry<T>)
    requires n.Stem? && Counted(n)
    requires Entries(Pruned(n.left, x)) == Entries(n.left)[x := 0]
    requires Entries(Pruned(n.right, x)) == Entries(n.right)[x := 0]
    ensures Entries(Pruned(n, x)) == Entries(n)[x := 0] && Entries(Pruned(n, x)) <= Entries(n)
    ensures |Entries(Pruned(n, x))| == n.size - Entries(n)[x]
    ensures Entries(Pruned(n, x).left) <= Entries(n.left) && Entries(Pruned(n, x).right) <= Entries(n.right)
  {
    PrunedStem(n, x);
    assert Entries(Pruned(n, x)) == Entries(n.left)[x := 0] + Entries(n.right)[x := 0];
    DropAll(Entries(n), x);
    DropAll(Entries(n.left), x);
    DropAll(Entries(n.right), x);
  }

  /** Dropping every copy of `x` from a multiset leaves a sub-multiset with that many fewer elements. */
  lemma DropAll<E>(m: multiset<E>, x: E)
    ensures m[x := 0] <= m && |m[x := 0]| + m[x] == |m|
  {
    var c := m - m[x := 0];
    assert m == m[x := 0] + c;
    assert forall y | y != x :: c[y] == 0;
    assert c[x] == m[x];
    DropAllCount(c, x);
  }

  /** A multiset holding only copies of `x` has as many elements as copies. */
  lemma {:induction false} DropAllCount<E>(c: multiset<E>, x: E)
    requires forall y | y != x :: c[y] == 0
    ensures |c| == c[x]
    decreases c[x]
  {
    if c[x] > 0 {
      var c' := c - multiset{x};
      DropAllCount(c', x);
      assert c == c' + multiset{x};
    }
  }

  /** With no copy of `x` below `n`, `remove` leaves the node exactly as it was. */
  lemma {:induction false} PrunedAbsent<T>(n: Node<T>, x: Entry<T>)
    requires Counted(n) && Entries(n)[x] == 0
    ensures Pruned(n, x) == n
    decreases n
  {
    if n.Leaf? {
      WithoutAbsent(n.entries, x);
    } else {
      PrunedStem(n, x);
      PrunedAbsent(n.left, x);
      PrunedAbsent(n.right, x);
    }
  }

  /**
    `remove` on the tree: a point with a non-finite coordinate is refused
    and the tree stays as it was; otherwise every entry equal to the pair is
    deleted and their number reported.
   */
  method Remove<T(==)>(t: KdTree<T>, point: seq<Coord>, value: T) returns (t': KdTree<T>, res: Result<nat>)
    requires ValidTree(t) && |point| == t.dim
    ensures !AllFinite(point) ==> res == Err(NonFiniteCoordinate) && t' == t
    ensures AllFinite(point) ==>
              var x := Entry(CheckPoint(point).value, value);
              res == Ok(Entries(t.root)[x]) && ValidTree(t') && t'.dim == t.dim && t'.capacity == t.capacity &&
              Entries(t'.root) == Entries(t.root)[x := 0] &&
              t'.root.size == t.root.size - res.value && t'.root.box == t.root.box
    ensures AllFinite(point) && res.value == 0 ==> t' == t
  {
    var checked := CheckPoint(point);
    if checked.Err? {
      return t, Err(checked.error);
    }
    var x := Entry(checked.value, value);
    PrunedValid(t.root, x, t.dim, t.capacity);
    if Entries(t.root)[x] == 0 {
      PrunedAbsent(t.root, x);
    }
    var root, removed := RemoveFrom(t.root, x);
    t', res := KdTree(t.dim, t.capacity, root), Ok(removed);
  }

  /** The first index whose point equals `p`, if any: `points.iter().position(|x| x == point)`. */
  function PointPosition<T>(es: seq<Entry<T>>, p: Point): (r: Option<nat>)
    ensures r.Some? ==> r.value < |es| && es[r.value].point == p
    decreases |es|
  {
    if es == [] then None
    else if es[0].point == p then Some(0)
    else
      match PointPosition(es[1..], p)
      case None => None
      case Some(i) => Some(i + 1)
  }

  /** `PointPosition` finds nothing exactly when no entry is at `p`, and otherwise the first one. */
  lemma {:induction false} PointPositionFirst<T>(es: seq<Entry<T>>, p: Point)
    ensures PointPosition(es, p).None? <==> forall j :: 0 <= j < |es| ==> es[j].point != p
    ensures PointPosition(es, p).Some? ==> forall j :: 0 <= j < PointPosition(es, p).value ==> es[j].point != p
    decreases |es|
  {
    if es != [] && es[0].point != p {
      PointPositionFirst(es[1..], p);
      assert forall j :: 1 <= j < |es| ==> es[j] == es[1..][j - 1];
    }
  }

  /** How the loop as written ends: with what is kept and the count, or not within the rounds given. */
  datatype Outcome<T> = Stalled | Finished(kept: seq<Entry<T>>, removed: nat)

  /**
    The deletion loop at a leaf as the source writes it: it looks for the
    first entry whose POINT equals the query and deletes it when its value
    matches; when the value does not match nothing changes and the same
    search is repeated. `fuel` bounds the number of rounds.
   */
  function LeafRemovalAsWritten<T(==)>(es: seq<Entry<T>>, p: Point, v: T, fuel: nat): Outcome<T>
    decreases fuel
  {
    match PointPosition(es, p)
    case None => Finished(es, 0)
    case Some(i) =>
      if fuel == 0 then Stalled
      else if es[i].value == v then
        match LeafRemovalAsWritten(es[..i] + es[i + 1..], p, v, fuel - 1)
        case Stalled => Stalled
        case Finished(kept, removed) => Finished(kept, removed + 1)
      else LeafRemovalAsWritten(es, p, v, fuel - 1)
  }

  /**
    The loop as written never finishes once some entry at the query point
    holds another value, however many rounds it is given: the entries at the
    point before it are deleted one by one, and then the search keeps
    finding that entry.
   */
  lemma {:induction false} AsWrittenStalls<T>(es: seq<Entry<T>>, p: Point, v: T, j: nat, fuel: nat)
    requires j < |es| && es[j].point == p && es[j].value != v
    ensures LeafRemovalAsWritten(es, p, v, fuel) == Stalled
    decreases |es|, fuel
  {
    PointPositionFirst(es, p);
    var i := PointPosition(es, p).value;
    if fuel > 0 {
      if es[i].value == v {
        var rest := es[..i] + es[i + 1..];
        assert rest[j - 1] == es[j];
        AsWrittenStalls(rest, p, v, j - 1, fuel - 1);
      } else {
        AsWrittenStalls(es, p, v, j, fuel - 1);
      }
    }
  }

  /** For instance: a leaf holding `([0.0], 1)` asked to remove `([0.0], 2)`. */
  lemma AsWrittenStallsOnOneEntry(fuel: nat)
    ensures LeafRemovalAsWritten([Entry([0.0], 1)], [0.0], 2, fuel) == Stalled
  {
    AsWrittenStalls([Entry([0.0], 1)], [0.0], 2, 0, fuel);
  }

  /**
    When every entry at the query point holds the queried value, the loop as
    written finishes within `|es| + 1` rounds and does what `RemoveFromLeaf`
    does.
   */
  lemma {:induction false} AsWrittenAgrees<T>(es: seq<Entry<T>>, p: Point, v: T, fuel: nat)
    requires forall j :: 0 <= j < |es| && es[j].point == p ==> es[j].value == v
    requires fuel > |es|
    ensures LeafRemovalAsWritten(es, p, v, fuel) == Finished(Without(es, Entry(p, v)), multiset(es)[Entry(p, v)])
    decreases |es|
  {
    var x := Entry(p, v);
    var pos := PointPosition(es, p);
    if pos.None? {
      PointPositionFirst(es, p);
      NoPointNoEntry(es, p, v);
      WithoutAbsent(es, x);
    } else {
      var i := pos.value;
      var rest := es[..i] + es[i + 1..];
      DeletionKeepsValues(es, p, v, i);
      AsWrittenAgrees(rest, p, v, fuel - 1);
      AsWrittenDeletes(es, p, v, fuel, i, Without(rest, x), multiset(rest)[x]);
      DeleteCopy(es, i, x);
    }
  }

  /** With no entry at point `p`, no entry is `(p, v)`. */
  lemma NoPointNoEntry<T>(es: seq<Entry<T>>, p: Point, v: T)
    requires forall j :: 0 <= j < |es| ==> es[j].point != p
    ensures Entry(p, v) !in es
  {
    forall j | 0 <= j < |es|
      ensures es[j] != Entry(p, v)
    {
      assert es[j].point != p;
    }
  }

  /** Deleting an entry keeps "every entry at `p` holds `v`", and the deleted entry is `(p, v)`. */
  lemma DeletionKeepsValues<T>(es: seq<Entry<T>>, p: Point, v: T, i: nat)
    requires forall j :: 0 <= j < |es| && es[j].point == p ==> es[j].value == v
    requires i < |es| && es[i].point == p
    ensures es[i] == Entry(p, v)
    ensures var rest := es[..i] + es[i + 1..];
            forall j :: 0 <= j < |rest| && rest[j].point == p ==> rest[j].value == v
  {
    var rest := es[..i] + es[i + 1..];
    forall j | 0 <= j < |rest| && rest[j].point == p
      ensures rest[j].value == v
    {
      if j < i {
        assert rest[j] == es[j];
      } else {
        assert rest[j] == es[j + 1];
      }
    }
  }

  /** One round of the loop as written that finds a matching value deletes it and counts it. */
  lemma AsWrittenDeletes<T>(es: seq<Entry<T>>, p: Point, v: T, fuel: nat, i: nat, kept: seq<Entry<T>>, removed: nat)
    requires PointPosition(es, p) == Some(i) && es[i].value == v && fuel > 0
    requires LeafRemovalAsWritten(es[..i] + es[i + 1..], p, v, fuel - 1) == Finished(kept, removed)
    ensures LeafRemovalAsWritten(es, p, v, fuel) == Finished(kept, removed + 1)
  {
  }
}
