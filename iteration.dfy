/**
  `iter_nearest` and `NearestIter::next`: a lazy best-first traversal with
  no pruning. Every sibling met on the way down is pushed with its lower
  bound, every leaf entry becomes a candidate, and each call hands out the
  nearest candidate once no frontier key is smaller than it.
 */
module Iteration {
  import opened Geometry
  import opened Nodes
  import opened SearchDefs
  import opened SearchLemmas

  /** Dropping one element keeps every frontier key a lower bound. */
  lemma FrontierRemoveAt<T>(q: Point, dist: (Point, Point) -> real, ps: seq<Pending<T>>, i: nat)
    requires i < |ps| && FrontierBounded(q, dist, ps)
    ensures FrontierBounded(q, dist, RemoveAt(ps, i))
  {
    PendingRemoveAt(ps, i);
  }

  /** While a held entry is still to come, the candidates are fewer than the entries of the tree. */
  lemma GatherRoom<T>(all: multiset<Entry<T>>, pending: multiset<Entry<T>>, held: multiset<Entry<T>>,
                      ev: seq<Candidate<T>>, returned: multiset<Entry<T>>)
    requires all == pending + held + CandEntries(ev) + returned && held != multiset{}
    ensures |ev| < |all|
  {
    CandSize(ev);
    assert |all| == |pending| + |held| + |CandEntries(ev)| + |returned|;
  }

  /** One leaf entry's accounting: it moves from the held part to the candidates. */
  lemma GatherAccounts<T>(all: multiset<Entry<T>>, pending: multiset<Entry<T>>, es: seq<Entry<T>>, k: nat,
                          ev: seq<Candidate<T>>, c: Candidate<T>, returned: multiset<Entry<T>>)
    requires k < |es| && c.entry == es[k]
    requires all == pending + multiset(es[k..]) + CandEntries(ev) + returned
    ensures all == pending + multiset(es[k + 1..]) + CandEntries(ev + [c]) + returned
    ensures |ev + [c]| <= |all|
  {
    assert es[k..] == [es[k]] + es[k + 1..];
    assert multiset(es[k..]) == multiset{es[k]} + multiset(es[k + 1..]);
    GatherRoom(all, pending, multiset(es[k..]), ev, returned);
    CandPush(ev, c);
    Rebalance(all, pending, multiset(es[k..]), CandEntries(ev), returned,
              multiset(es[k + 1..]), CandEntries(ev + [c]), multiset{}, es[k]);
    assert returned + multiset{} == returned;
  }

  /** A candidate made with its true distance keeps every candidate's distance true. */
  lemma GatherDistances<T>(q: Point, dist: (Point, Point) -> real, ev: seq<Candidate<T>>, c: Candidate<T>, num: nat)
    requires CandidatesOk(q, dist, ev, num, NoLimit) && |ev| < num && c.distance == dist(q, c.entry.point)
    ensures CandidatesOk(q, dist, ev + [c], num, NoLimit)
  {
    var ev' := ev + [c];
    forall i | 0 <= i < |ev'|
      ensures ev'[i].distance == dist(q, ev'[i].entry.point)
    {
      if i < |ev| {
        assert ev'[i] == ev[i];
      }
    }
  }

  /**
    When the expansion loop stops with candidates held, the best one is no
    farther than anything not yet handed out, and no nearer than what was
    handed out before.
   */
  lemma IterAnswer<T>(all: multiset<Entry<T>>, q: Point, dist: (Point, Point) -> real, ps: seq<Pending<T>>,
                      ev: seq<Candidate<T>>, returned: multiset<Entry<T>>, last: real)
    requires ev != [] && all == PendingEntries(ps) + CandEntries(ev) + returned
    requires forall i :: 0 <= i < |ev| ==> ev[i].distance == dist(q, ev[i].entry.point)
    requires FrontierBounded(q, dist, ps)
    requires ps == [] || ev[BestIndex(ev)].distance < ps[NearestIndex(ps)].bound
    requires forall e | e in all - returned :: last <= dist(q, e.point)
    ensures var b := BestIndex(ev);
            last <= ev[b].distance &&
            all == PendingEntries(ps) + CandEntries(RemoveAt(ev, b)) + (returned + multiset{ev[b].entry}) &&
            forall e | e in all - (returned + multiset{ev[b].entry}) :: ev[b].distance <= dist(q, e.point)
  {
    var b := BestIndex(ev);
    CandRemoveAt(ev, b);
    var i := InCandEntries(ev, ev[b].entry);
    assert ev[b].entry in all - returned;
    if ps != [] {
      FrontierAbove(q, dist, ps);
    }
    forall e | e in all - (returned + multiset{ev[b].entry})
      ensures ev[b].distance <= dist(q, e.point)
    {
      if e in CandEntries(ev) {
        var j := InCandEntries(ev, e);
      } else {
        assert e in PendingEntries(ps);
      }
    }
  }

  /** The best candidate's entry moves from the candidates to the handed-out entries. */
  lemma HandoutAccounts<T>(all: multiset<Entry<T>>, pending: multiset<Entry<T>>, ev: seq<Candidate<T>>,
                           returned: multiset<Entry<T>>)
    requires ev != [] && all == pending + CandEntries(ev) + returned
    ensures var c := ev[BestIndex(ev)];
            all == pending + CandEntries(RemoveAt(ev, BestIndex(ev))) + (returned + multiset{c.entry}) &&
            c.entry in all - returned
  {
    var b := BestIndex(ev);
    CandRemoveAt(ev, b);
    var i := InCandEntries(ev, ev[b].entry);
  }

  /** Removing a candidate keeps every remaining distance true. */
  lemma HandoutDistances<T>(q: Point, dist: (Point, Point) -> real, ev: seq<Candidate<T>>, num: nat)
    requires ev != [] && CandidatesOk(q, dist, ev, num, NoLimit)
    ensures CandidatesOk(q, dist, RemoveAt(ev, BestIndex(ev)), num, NoLimit)
  {
    var b := BestIndex(ev);
    var ev' := RemoveAt(ev, b);
    forall j | 0 <= j < |ev'|
      ensures ev'[j].distance == dist(q, ev'[j].entry.point)
    {
      assert ev'[j] == ev[if j < b then j else j + 1];
    }
  }

  /**
    The invariant of the iterator. Every entry of the tree is below a
    frontier subtree, in `held` (what an expansion is working on), among the
    candidates, or handed out; every candidate carries its true distance;
    and, under the caller's contract, every frontier key is a lower bound
    and nothing not yet handed out is nearer than `last`, the distance
    handed out last.
   */
  ghost predicate IterState<T>(root: Node<T>, dim: nat, cap: nat, q: Point, dist: (Point, Point) -> real,
                               toSpace: (Point, Box) -> real, ps: seq<Pending<T>>, held: multiset<Entry<T>>,
                               ev: seq<Candidate<T>>, returned: multiset<Entry<T>>, last: real)
  {
    Tracking(root, dim, cap, q, dist, false, |Entries(root)|, NoLimit, ps, held, ev, returned) &&
    (Admissible(q, dist, toSpace) ==>
       FrontierBounded(q, dist, ps) && forall e | e in Entries(root) - returned :: last <= dist(q, e.point))
  }

  /** `iter_nearest` starts from the root under key 0, with nothing evaluated. */
  lemma IterStart<T>(root: Node<T>, dim: nat, cap: nat, q: Point, dist: (Point, Point) -> real,
                     toSpace: (Point, Box) -> real)
    requires Valid(root, dim, cap)
    ensures IterState(root, dim, cap, q, dist, toSpace, [Pending(0.0, root)], multiset{}, [], multiset{}, 0.0)
  {
    Start(root, dim, cap, q, dist, toSpace, false, |Entries(root)|, NoLimit);
    if Admissible(q, dist, toSpace) {
      Start(root, dim, cap, q, dist, toSpace, true, |Entries(root)|, NoLimit);
    }
  }

  /** Popping the frontier element at `i`: its subtree becomes the held part. */
  lemma IterPop<T>(root: Node<T>, dim: nat, cap: nat, q: Point, dist: (Point, Point) -> real,
                   toSpace: (Point, Box) -> real, ps: seq<Pending<T>>, ev: seq<Candidate<T>>,
                   returned: multiset<Entry<T>>, last: real, i: nat)
    requires IterState(root, dim, cap, q, dist, toSpace, ps, multiset{}, ev, returned, last) && i < |ps|
    ensures IterState(root, dim, cap, q, dist, toSpace, RemoveAt(ps, i), Entries(ps[i].node), ev, returned, last)
    ensures Valid(ps[i].node, dim, cap)
    ensures PendingCount(RemoveAt(ps, i)) + NodeCount(ps[i].node) == PendingCount(ps)
  {
    PopOk(root, dim, cap, q, dist, false, |Entries(root)|, NoLimit, ps, ev, returned, i);
    if Admissible(q, dist, toSpace) {
      FrontierRemoveAt(q, dist, ps, i);
    }
  }

  /** One move down a stem: the sibling is always pushed with the bound of its box. */
  lemma IterDescend<T>(root: Node<T>, dim: nat, cap: nat, q: Point, dist: (Point, Point) -> real,
                       toSpace: (Point, Box) -> real, ps: seq<Pending<T>>, curr: Node<T>, ev: seq<Candidate<T>>,
                       returned: multiset<Entry<T>>, last: real, next: Node<T>, sib: Node<T>)
    requires curr.Stem? && ((next == curr.left && sib == curr.right) || (next == curr.right && sib == curr.left))
    requires IterState(root, dim, cap, q, dist, toSpace, ps, Entries(curr), ev, returned, last)
    requires Valid(curr, dim, cap)
    ensures IterState(root, dim, cap, q, dist, toSpace, ps + [Pending(toSpace(q, sib.box), sib)], Entries(next), ev, returned, last)
    ensures PendingCount(ps + [Pending(toSpace(q, sib.box), sib)]) + NodeCount(next) < PendingCount(ps) + NodeCount(curr)
    ensures Valid(next, dim, cap)
  {
    DescendPush(root, dim, cap, q, dist, toSpace, false, |Entries(root)|, NoLimit, ps, curr, ev, returned, next, sib);
    Children(curr, next, sib, dim, cap);
    if Admissible(q, dist, toSpace) {
      BoxBound(q, dist, toSpace, sib, dim, cap);
      FrontierPush(dim, cap, q, dist, true, ps, Pending(toSpace(q, sib.box), sib));
    }
  }

  /** One leaf entry becomes a candidate, with its distance. */
  lemma IterGather<T>(root: Node<T>, dim: nat, cap: nat, q: Point, dist: (Point, Point) -> real,
                      toSpace: (Point, Box) -> real, ps: seq<Pending<T>>, es: seq<Entry<T>>, k: nat,
                      ev: seq<Candidate<T>>, returned: multiset<Entry<T>>, last: real)
    requires k < |es|
    requires IterState(root, dim, cap, q, dist, toSpace, ps, multiset(es[k..]), ev, returned, last)
    ensures IterState(root, dim, cap, q, dist, toSpace, ps, multiset(es[k + 1..]),
                      ev + [Candidate(dist(q, es[k].point), es[k])], returned, last)
  {
    var c := Candidate(dist(q, es[k].point), es[k]);
    GatherAccounts(Entries(root), PendingEntries(ps), es, k, ev, c, returned);
    GatherDistances(q, dist, ev, c, |Entries(root)|);
  }

  /**
    When the expansion loop stops with candidates held, handing out the best
    one keeps the invariant: its entry moves to the handed-out entries, and
    under the caller's contract it is no nearer than what was handed out
    before and no farther than anything left.
   */
  lemma IterHandout<T>(root: Node<T>, dim: nat, cap: nat, q: Point, dist: (Point, Point) -> real,
                       toSpace: (Point, Box) -> real, ps: seq<Pending<T>>, ev: seq<Candidate<T>>,
                       returned: multiset<Entry<T>>, last: real)
    requires IterState(root, dim, cap, q, dist, toSpace, ps, multiset{}, ev, returned, last)
    requires ev != [] && (ps == [] || ev[BestIndex(ev)].distance < ps[NearestIndex(ps)].bound)
    ensures var c := ev[BestIndex(ev)];
            IterState(root, dim, cap, q, dist, toSpace, ps, multiset{}, RemoveAt(ev, BestIndex(ev)),
                      returned + multiset{c.entry}, c.distance) &&
            c.entry in Entries(root) - returned &&
            (Admissible(q, dist, toSpace) ==>
               last <= c.distance &&
               forall e | e in Entries(root) - (returned + multiset{c.entry}) :: c.distance <= dist(q, e.point))
  {
    assert PendingEntries(ps) + multiset{} == PendingEntries(ps);
    HandoutAccounts(Entries(root), PendingEntries(ps), ev, returned);
    HandoutDistances(q, dist, ev, |Entries(root)|);
    if Admissible(q, dist, toSpace) {
      IterAnswer(Entries(root), q, dist, ps, ev, returned, last);
    }
  }

  /**
    With nothing held, the iterator is exhausted exactly when every entry
    has been handed out: then no candidate is left, and an empty frontier
    with no candidates leaves nothing else.
   */
  lemma IterExhausted<T>(root: Node<T>, dim: nat, cap: nat, q: Point, dist: (Point, Point) -> real,
                         toSpace: (Point, Box) -> real, ps: seq<Pending<T>>, ev: seq<Candidate<T>>,
                         returned: multiset<Entry<T>>, last: real)
    requires IterState(root, dim, cap, q, dist, toSpace, ps, multiset{}, ev, returned, last)
    ensures returned == Entries(root) ==> ev == []
    ensures ps == [] && ev == [] ==> returned == Entries(root)
  {
    CandSize(ev);
    var all := Entries(root);
    assert |all| == |PendingEntries(ps)| + |CandEntries(ev)| + |returned|;
  }

  /**
    One round of the loop in `NearestIter::next`: pop the frontier element
    with the least key, walk down to the leaf the query point belongs in
    pushing every sibling with the bound of its box, and make every entry of
    the leaf a candidate with its distance. Nothing is handed out, and the
    frontier shrinks by at least the popped node.
   */
  method Expand<T>(ghost root: Node<T>, ghost dim: nat, ghost cap: nat, q: Point, dist: (Point, Point) -> real,
                   toSpace: (Point, Box) -> real, ps: seq<Pending<T>>, ev: seq<Candidate<T>>,
                   ghost returned: multiset<Entry<T>>, ghost last: real)
    returns (ps': seq<Pending<T>>, ev': seq<Candidate<T>>)
    requires |q| == dim && ps != []
    requires IterState(root, dim, cap, q, dist, toSpace, ps, multiset{}, ev, returned, last)
    ensures IterState(root, dim, cap, q, dist, toSpace, ps', multiset{}, ev', returned, last)
    ensures PendingCount(ps') < PendingCount(ps)
  {
    var i := NearestIndex(ps);
    var curr := ps[i].node;
    IterPop(root, dim, cap, q, dist, toSpace, ps, ev, returned, last, i);
    ps' := RemoveAt(ps, i);
    while curr.Stem?
      invariant IterState(root, dim, cap, q, dist, toSpace, ps', Entries(curr), ev, returned, last)
      invariant Valid(curr, dim, cap) && PendingCount(ps') + NodeCount(curr) <= PendingCount(ps)
      decreases curr
    {
      var candidate, next;
      if BelongsInLeft(curr, q) {
        candidate, next := curr.right, curr.left;
      } else {
        candidate, next := curr.left, curr.right;
      }
      IterDescend(root, dim, cap, q, dist, toSpace, ps', curr, ev, returned, last, next, candidate);
      ps' := ps' + [Pending(toSpace(q, candidate.box), candidate)];
      curr := next;
    }
    var es := curr.entries;
    ev' := ev;
    assert es[0..] == es;
    for k := 0 to |es|
      invariant IterState(root, dim, cap, q, dist, toSpace, ps', multiset(es[k..]), ev', returned, last)
    {
      IterGather(root, dim, cap, q, dist, toSpace, ps', es, k, ev', returned, last);
      ev' := ev' + [Candidate(dist(q, es[k].point), es[k])];
    }
    assert es[|es|..] == [];
  }

  /**
    `NearestIter::next` on the iterator's state: while the frontier is not
    empty and no candidate is nearer than its least key, expand; then hand
    out the nearest candidate, if any. Every entry is handed out once;
    under the caller's contract in order of distance, each no farther than
    anything left.
   */
  method Pull<T>(ghost root: Node<T>, ghost dim: nat, ghost cap: nat, q: Point, dist: (Point, Point) -> real,
                 toSpace: (Point, Box) -> real, ps: seq<Pending<T>>, ev: seq<Candidate<T>>,
                 ghost returned: multiset<Entry<T>>, ghost last: real)
    returns (ps': seq<Pending<T>>, ev': seq<Candidate<T>>, r: Option<Candidate<T>>,
             ghost returned': multiset<Entry<T>>, ghost last': real)
    requires |q| == dim
    requires IterState(root, dim, cap, q, dist, toSpace, ps, multiset{}, ev, returned, last)
    ensures IterState(root, dim, cap, q, dist, toSpace, ps', multiset{}, ev', returned', last')
    ensures r.None? <==> returned == Entries(root)
    ensures r.None? ==> returned' == returned && last' == last
    ensures r.Some? ==>
              r.value.entry in Entries(root) - returned && returned' == returned + multiset{r.value.entry} &&
              r.value.distance == dist(q, r.value.entry.point) && last' == r.value.distance
    ensures r.Some? && Admissible(q, dist, toSpace) ==>
              last <= r.value.distance &&
              forall e | e in Entries(root) - returned' :: r.value.distance <= dist(q, e.point)
  {
    ps', ev' := ps, ev;
    while ps' != [] && (ev' == [] || ev'[BestIndex(ev')].distance >= ps'[NearestIndex(ps')].bound)
      invariant IterState(root, dim, cap, q, dist, toSpace, ps', multiset{}, ev', returned, last)
      decreases PendingCount(ps')
    {
      ps', ev' := Expand(root, dim, cap, q, dist, toSpace, ps', ev', returned, last);
    }
    IterExhausted(root, dim, cap, q, dist, toSpace, ps', ev', returned, last);
    if ev' == [] {
      return ps', ev', None, returned, last;
    }
    var b := BestIndex(ev');
    var c := ev'[b];
    IterHandout(root, dim, cap, q, dist, toSpace, ps', ev', returned, last);
    r := Some(c);
    ev' := RemoveAt(ev', b);
    returned', last' := returned + multiset{c.entry}, c.distance;
  }

  /**
    The state of `NearestIter`: the query point, the distance and its lower
    bound, the frontier and the candidates. `root`, `returned` (what `next`
    has handed out) and `last` (the distance it handed out last) exist for
    the proof.
   */
  class NearestIter<T> {
    const q: Point
    const dist: (Point, Point) -> real
    const toSpace: (Point, Box) -> real
    var pending: seq<Pending<T>>
    var evaluated: seq<Candidate<T>>
    ghost const root: Node<T>
    ghost const dim: nat
    ghost const cap: nat
    ghost var returned: multiset<Entry<T>>
    ghost var last: real

    /** The iterator's invariant over its own state. */
    ghost predicate Valid()
      reads this
    {
      |q| == dim && IterState(root, dim, cap, q, dist, toSpace, pending, multiset{}, evaluated, returned, last)
    }

    /** The iterator `iter_nearest` builds once the point is checked: the root under key 0. */
    constructor (t: KdTree<T>, point: Point, distance: (Point, Point) -> real, lower: (Point, Box) -> real)
      requires ValidTree(t) && |point| == t.dim
      ensures Valid() && root == t.root && dim == t.dim && cap == t.capacity && returned == multiset{} && last == 0.0
      ensures q == point && dist == distance && toSpace == lower
      ensures pending == [Pending(0.0, t.root)] && evaluated == []
    {
      q, dist, toSpace := point, distance, lower;
      root, dim, cap := t.root, t.dim, t.capacity;
      pending, evaluated := [Pending(0.0, t.root)], [];
      returned, last := multiset{}, 0.0;
      new;
      IterStart(root, dim, cap, q, dist, toSpace);
    }

    /**
      `next`: hand out the nearest entry not handed out yet, if any; the
      frontier and the candidates are updated in place.
     */
    method Next() returns (r: Option<Candidate<T>>)
      requires Valid()
      modifies this
      ensures Valid()
      ensures r.None? <==> old(returned) == Entries(root)
      ensures r.None? ==> returned == old(returned) && last == old(last)
      ensures r.Some? ==>
                r.value.entry in Entries(root) - old(returned) && returned == old(returned) + multiset{r.value.entry} &&
                r.value.distance == dist(q, r.value.entry.point) && last == r.value.distance
      ensures r.Some? && Admissible(q, dist, toSpace) ==>
                old(last) <= r.value.distance &&
                forall e | e in Entries(root) - returned :: r.value.distance <= dist(q, e.point)
    {
      var ps, ev;
      ghost var returned', last';
      ps, ev, r, returned', last' := Pull(root, dim, cap, q, dist, toSpace, pending, evaluated, returned, last);
      pending, evaluated, returned, last := ps, ev, returned', last';
    }
  }

  /** `iter_nearest`: a query point with a non-finite coordinate is refused. */
  method IterNearest<T>(t: KdTree<T>, point: seq<Coord>, dist: (Point, Point) -> real, toSpace: (Point, Box) -> real)
    returns (res: Result<NearestIter<T>>)
    requires ValidTree(t) && |point| == t.dim
    ensures !AllFinite(point) ==> res == Err(NonFiniteCoordinate)
    ensures AllFinite(point) ==>
              res.Ok? && fresh(res.value) && res.value.Valid() && res.value.root == t.root &&
              res.value.q == CheckPoint(point).value && res.value.dist == dist && res.value.toSpace == toSpace &&
              res.value.dim == t.dim && res.value.cap == t.capacity &&
              res.value.returned == multiset{} && res.value.last == 0.0 &&
              res.value.pending == [Pending(0.0, t.root)] && res.value.evaluated == []
  {
    var checked := CheckPoint(point);
    if checked.Err? {
      return Err(checked.error);
    }
    var it := new NearestIter(t, checked.value, dist, toSpace);
    res := Ok(it);
  }
}
