/**
  Facts about the query bookkeeping: how the frontier and the candidates
  account for entries, and the step lemmas that keep `Tracking` across one
  pop, one descent and one leaf entry.
 */
module SearchLemmas {
  import opened Geometry
  import opened Nodes
  import opened SearchDefs

  lemma {:induction false} PendingConcat<T>(a: seq<Pending<T>>, b: seq<Pending<T>>)
    ensures PendingEntries(a + b) == PendingEntries(a) + PendingEntries(b)
    ensures PendingCount(a + b) == PendingCount(a) + PendingCount(b)
    decreases |a|
  {
    if a == [] {
      assert a + b == b;
    } else {
      assert (a + b)[1..] == a[1..] + b;
      PendingConcat(a[1..], b);
    }
  }

  lemma {:induction false} CandConcat<T>(a: seq<Candidate<T>>, b: seq<Candidate<T>>)
    ensures CandEntries(a + b) == CandEntries(a) + CandEntries(b)
    decreases |a|
  {
    if a == [] {
      assert a + b == b;
    } else {
      assert (a + b)[1..] == a[1..] + b;
      CandConcat(a[1..], b);
    }
  }

  lemma {:induction false} CandSize<T>(cs: seq<Candidate<T>>)
    ensures |CandEntries(cs)| == |cs|
    decreases |cs|
  {
    if cs != [] {
      CandSize(cs[1..]);
    }
  }

  /** An entry among the candidates is the entry of one of them. */
  lemma {:induction false} InCandEntries<T>(cs: seq<Candidate<T>>, e: Entry<T>) returns (i: nat)
    requires e in CandEntries(cs)
    ensures i < |cs| && cs[i].entry == e
    decreases |cs|
  {
    if cs[0].entry == e {
      i := 0;
    } else {
      i := InCandEntries(cs[1..], e);
      i := i + 1;
    }
  }

  /** An entry below the frontier is below one of its subtrees. */
  lemma {:induction false} InPendingEntries<T>(ps: seq<Pending<T>>, e: Entry<T>) returns (i: nat)
    requires e in PendingEntries(ps)
    ensures i < |ps| && e in Entries(ps[i].node)
    decreases |ps|
  {
    if e in Entries(ps[0].node) {
      i := 0;
    } else {
      i := InPendingEntries(ps[1..], e);
      i := i + 1;
    }
  }

  /** Taking the element at `i` off the frontier. */
  lemma PendingRemoveAt<T>(ps: seq<Pending<T>>, i: nat)
    requires i < |ps|
    ensures PendingEntries(ps) == PendingEntries(RemoveAt(ps, i)) + Entries(ps[i].node)
    ensures PendingCount(ps) == PendingCount(RemoveAt(ps, i)) + NodeCount(ps[i].node)
    ensures forall j :: 0 <= j < |ps| - 1 ==> RemoveAt(ps, i)[j] == ps[if j < i then j else j + 1]
  {
    assert ps == (ps[..i] + [ps[i]]) + ps[i + 1..];
    PendingConcat(ps[..i] + [ps[i]], ps[i + 1..]);
    PendingConcat(ps[..i], [ps[i]]);
    PendingConcat(ps[..i], ps[i + 1..]);
    assert [ps[i]][1..] == [];
  }

  /** Pushing `p` onto the frontier. */
  lemma PendingPush<T>(ps: seq<Pending<T>>, p: Pending<T>)
    ensures PendingEntries(ps + [p]) == PendingEntries(ps) + Entries(p.node)
    ensures PendingCount(ps + [p]) == PendingCount(ps) + NodeCount(p.node)
  {
    PendingConcat(ps, [p]);
    assert [p][1..] == [];
  }

  lemma {:induction false} CandRemoveAt<T>(cs: seq<Candidate<T>>, i: nat)
    requires i < |cs|
    ensures CandEntries(cs) == CandEntries(RemoveAt(cs, i)) + multiset{cs[i].entry}
    decreases i
  {
    if i == 0 {
      assert RemoveAt(cs, i) == cs[1..];
    } else {
      var t := RemoveAt(cs[1..], i - 1);
      assert RemoveAt(cs, i) == [cs[0]] + t;
      assert ([cs[0]] + t)[1..] == t;
      CandRemoveAt(cs[1..], i - 1);
    }
  }

  lemma CandPush<T>(cs: seq<Candidate<T>>, c: Candidate<T>)
    ensures CandEntries(cs + [c]) == CandEntries(cs) + multiset{c.entry}
  {
    CandConcat(cs, [c]);
    assert [c][1..] == [];
  }

  /** A key beyond the cutoff puts every entry at least that far away out of the answer. */
  lemma CutoffBeyond<T>(d: real, b: real, ev: seq<Candidate<T>>, num: nat, maxDist: Limit)
    requires !InLimit(b, Cutoff(ev, num, maxDist)) && b <= d
    ensures Beyond(d, ev, num, maxDist)
  {
  }

  /** The query starts with the root on the frontier under key 0. */
  lemma Start<T>(root: Node<T>, dim: nat, cap: nat, q: Point, dist: (Point, Point) -> real,
                 toSpace: (Point, Box) -> real, model: bool, num: nat, maxDist: Limit)
    requires Valid(root, dim, cap) && (model ==> Admissible(q, dist, toSpace))
    ensures Tracking(root, dim, cap, q, dist, model, num, maxDist, [Pending(0.0, root)], multiset{}, [], multiset{})
  {
    var ps := [Pending(0.0, root)];
    assert ps[1..] == [];
    assert PendingEntries(ps) == Entries(root);
    assert FrontierValid(ps, dim, cap);
    if model {
      assert Bounded(q, dist, ps[0]);
    }
  }

  /** Popping the element at `i`: its subtree becomes the held part. */
  lemma PopOk<T>(root: Node<T>, dim: nat, cap: nat, q: Point, dist: (Point, Point) -> real, model: bool,
                 num: nat, maxDist: Limit, ps: seq<Pending<T>>, ev: seq<Candidate<T>>, discarded: multiset<Entry<T>>, i: nat)
    requires Tracking(root, dim, cap, q, dist, model, num, maxDist, ps, multiset{}, ev, discarded) && i < |ps|
    ensures Tracking(root, dim, cap, q, dist, model, num, maxDist, RemoveAt(ps, i), Entries(ps[i].node), ev, discarded)
    ensures Valid(ps[i].node, dim, cap)
    ensures PendingCount(RemoveAt(ps, i)) + NodeCount(ps[i].node) == PendingCount(ps)
  {
    PendingRemoveAt(ps, i);
  }

  /** Pushing a valid subtree whose key is a lower bound keeps the frontier right. */
  lemma FrontierPush<T>(dim: nat, cap: nat, q: Point, dist: (Point, Point) -> real, model: bool,
                        ps: seq<Pending<T>>, p: Pending<T>)
    requires FrontierValid(ps, dim, cap) && Valid(p.node, dim, cap)
    requires model ==> FrontierBounded(q, dist, ps) && Bounded(q, dist, p)
    ensures FrontierValid(ps + [p], dim, cap) && (model ==> FrontierBounded(q, dist, ps + [p]))
    ensures PendingEntries(ps + [p]) == PendingEntries(ps) + Entries(p.node)
    ensures PendingCount(ps + [p]) == PendingCount(ps) + NodeCount(p.node)
  {
    PendingPush(ps, p);
    var ps' := ps + [p];
    forall j | 0 <= j < |ps'|
      ensures ps'[j] == if j < |ps| then ps[j] else p
    {
    }
  }

  /** Under the caller's contract the bound of a subtree's box is a lower bound for its entries. */
  lemma BoxBound<T>(q: Point, dist: (Point, Point) -> real, toSpace: (Point, Box) -> real, n: Node<T>, dim: nat, cap: nat)
    requires Valid(n, dim, cap) && Admissible(q, dist, toSpace)
    ensures Bounded(q, dist, Pending(toSpace(q, n.box), n))
  {
    forall e | e in Entries(n)
      ensures toSpace(q, n.box) <= dist(q, e.point)
    {
      assert InBox(e.point, n.box);
    }
  }

  /** A subtree whose bound lies beyond the cutoff holds only entries that may be left out. */
  lemma PrunedBeyond<T>(q: Point, dist: (Point, Point) -> real, toSpace: (Point, Box) -> real, n: Node<T>,
                        dim: nat, cap: nat, ev: seq<Candidate<T>>, num: nat, maxDist: Limit)
    requires Valid(n, dim, cap) && Admissible(q, dist, toSpace)
    requires !InLimit(toSpace(q, n.box), Cutoff(ev, num, maxDist))
    ensures forall e | e in Entries(n) :: Beyond(dist(q, e.point), ev, num, maxDist)
  {
    BoxBound(q, dist, toSpace, n, dim, cap);
    forall e | e in Entries(n)
      ensures Beyond(dist(q, e.point), ev, num, maxDist)
    {
      CutoffBeyond(dist(q, e.point), toSpace(q, n.box), ev, num, maxDist);
    }
  }

  /** The two children of a valid stem are valid and smaller. */
  lemma Children<T>(curr: Node<T>, next: Node<T>, sib: Node<T>, dim: nat, cap: nat)
    requires curr.Stem? && ((next == curr.left && sib == curr.right) || (next == curr.right && sib == curr.left))
    requires Valid(curr, dim, cap)
    ensures Valid(next, dim, cap) && Valid(sib, dim, cap)
    ensures NodeCount(next) + NodeCount(sib) < NodeCount(curr)
    ensures Entries(curr) == Entries(next) + Entries(sib)
  {
  }

  /** One move down a stem whose sibling is pushed: the child becomes the held part. */
  lemma DescendPush<T>(root: Node<T>, dim: nat, cap: nat, q: Point, dist: (Point, Point) -> real,
                       toSpace: (Point, Box) -> real, model: bool, num: nat, maxDist: Limit, ps: seq<Pending<T>>,
                       curr: Node<T>, ev: seq<Candidate<T>>, discarded: multiset<Entry<T>>, next: Node<T>, sib: Node<T>)
    requires curr.Stem? && ((next == curr.left && sib == curr.right) || (next == curr.right && sib == curr.left))
    requires Tracking(root, dim, cap, q, dist, model, num, maxDist, ps, Entries(curr), ev, discarded)
    requires Valid(curr, dim, cap) && (model ==> Admissible(q, dist, toSpace))
    ensures Tracking(root, dim, cap, q, dist, model, num, maxDist, ps + [Pending(toSpace(q, sib.box), sib)], Entries(next), ev, discarded)
    ensures PendingCount(ps + [Pending(toSpace(q, sib.box), sib)]) + NodeCount(next) < PendingCount(ps) + NodeCount(curr)
  {
    Children(curr, next, sib, dim, cap);
    if model {
      BoxBound(q, dist, toSpace, sib, dim, cap);
    }
    FrontierPush(dim, cap, q, dist, model, ps, Pending(toSpace(q, sib.box), sib));
  }

  /** One move down a stem whose sibling is pruned: its entries are discarded. */
  lemma DescendPrune<T>(root: Node<T>, dim: nat, cap: nat, q: Point, dist: (Point, Point) -> real,
                        toSpace: (Point, Box) -> real, model: bool, num: nat, maxDist: Limit, ps: seq<Pending<T>>,
                        curr: Node<T>, ev: seq<Candidate<T>>, discarded: multiset<Entry<T>>, next: Node<T>, sib: Node<T>)
    requires curr.Stem? && ((next == curr.left && sib == curr.right) || (next == curr.right && sib == curr.left))
    requires Tracking(root, dim, cap, q, dist, model, num, maxDist, ps, Entries(curr), ev, discarded)
    requires Valid(curr, dim, cap) && (model ==> Admissible(q, dist, toSpace))
    requires !InLimit(toSpace(q, sib.box), Cutoff(ev, num, maxDist))
    ensures Tracking(root, dim, cap, q, dist, model, num, maxDist, ps, Entries(next), ev, discarded + Entries(sib))
    ensures NodeCount(next) < NodeCount(curr)
  {
    Children(curr, next, sib, dim, cap);
    if model {
      PrunedBeyond(q, dist, toSpace, sib, dim, cap, ev, num, maxDist);
    }
  }

  /** `Offer` accounts for the entry it is given: kept as a candidate, or dropped. */
  lemma OfferAccounts<T>(ev: seq<Candidate<T>>, c: Candidate<T>, num: nat, maxDist: Limit)
    requires |ev| <= num && 0 < num
    ensures CandEntries(Offer(ev, c, num, maxDist)) + Dropped(ev, c, num, maxDist) == CandEntries(ev) + multiset{c.entry}
  {
    if !InLimit(c.distance, maxDist) {
      assert Offer(ev, c, num, maxDist) == ev;
    } else if |ev| < num {
      assert Offer(ev, c, num, maxDist) == ev + [c];
      CandPush(ev, c);
    } else if c.distance < Worst(ev) {
      var w := WorstIndex(ev);
      assert Offer(ev, c, num, maxDist) == RemoveAt(ev, w) + [c];
      CandRemoveAt(ev, w);
      CandPush(RemoveAt(ev, w), c);
    } else {
      assert Offer(ev, c, num, maxDist) == ev;
    }
  }

  /** `Offer` keeps every candidate's distance true and within `max_dist`. */
  lemma OfferCandidates<T>(q: Point, dist: (Point, Point) -> real, ev: seq<Candidate<T>>, c: Candidate<T>,
                           num: nat, maxDist: Limit)
    requires 0 < num && CandidatesOk(q, dist, ev, num, maxDist) && c.distance == dist(q, c.entry.point)
    ensures CandidatesOk(q, dist, Offer(ev, c, num, maxDist), num, maxDist)
  {
    var r := Offer(ev, c, num, maxDist);
    forall i | 0 <= i < |r|
      ensures r[i].distance == dist(q, r[i].entry.point) && InLimit(r[i].distance, maxDist)
    {
      assert r[i] in r;
    }
  }

  /**
    What was discarded before `Offer` may still be left out after it (the
    worst candidate never grows once `num` are held), and so may what it drops.
   */
  lemma OfferDiscards<T>(q: Point, dist: (Point, Point) -> real, ev: seq<Candidate<T>>, c: Candidate<T>,
                         num: nat, maxDist: Limit, discarded: multiset<Entry<T>>)
    requires 0 < num && CandidatesOk(q, dist, ev, num, maxDist) && c.distance == dist(q, c.entry.point)
    requires DiscardOk(q, dist, discarded, ev, num, maxDist)
    ensures DiscardOk(q, dist, discarded + Dropped(ev, c, num, maxDist), Offer(ev, c, num, maxDist), num, maxDist)
  {
    var r := Offer(ev, c, num, maxDist);
    forall e | e in discarded + Dropped(ev, c, num, maxDist)
      ensures Beyond(dist(q, e.point), r, num, maxDist)
    {
      if e in discarded {
        assert Beyond(dist(q, e.point), ev, num, maxDist);
      } else if InLimit(c.distance, maxDist) && |ev| == num && c.distance < Worst(ev) {
        assert e == ev[WorstIndex(ev)].entry;
      }
    }
  }

  /** Moving one element from the held part through the candidates. */
  lemma Rebalance<X>(all: multiset<X>, pending: multiset<X>, held: multiset<X>, cands: multiset<X>, discarded: multiset<X>,
                     rest: multiset<X>, cands': multiset<X>, dropped: multiset<X>, x: X)
    requires all == pending + held + cands + discarded
    requires held == multiset{x} + rest && cands' + dropped == cands + multiset{x}
    ensures all == pending + rest + cands' + (discarded + dropped)
  {
    forall y
      ensures all[y] == (pending + rest + cands' + (discarded + dropped))[y]
    {
      assert held[y] == (multiset{x} + rest)[y];
      assert (cands' + dropped)[y] == (cands + multiset{x})[y];
    }
  }

  /** One leaf entry: `Offer` takes it from the held part. */
  lemma Scan<T>(root: Node<T>, dim: nat, cap: nat, q: Point, dist: (Point, Point) -> real, model: bool,
                num: nat, maxDist: Limit, ps: seq<Pending<T>>, es: seq<Entry<T>>, k: nat,
                ev: seq<Candidate<T>>, discarded: multiset<Entry<T>>)
    requires k < |es| && 0 < num
    requires Tracking(root, dim, cap, q, dist, model, num, maxDist, ps, multiset(es[k..]), ev, discarded)
    ensures var c := Candidate(dist(q, es[k].point), es[k]);
            Tracking(root, dim, cap, q, dist, model, num, maxDist, ps, multiset(es[k + 1..]),
                     Offer(ev, c, num, maxDist), discarded + Dropped(ev, c, num, maxDist))
  {
    var c := Candidate(dist(q, es[k].point), es[k]);
    assert es[k..] == [es[k]] + es[k + 1..];
    assert multiset(es[k..]) == multiset{es[k]} + multiset(es[k + 1..]);
    OfferAccounts(ev, c, num, maxDist);
    var r, dropped := Offer(ev, c, num, maxDist), Dropped(ev, c, num, maxDist);
    Rebalance(Entries(root), PendingEntries(ps), multiset(es[k..]), CandEntries(ev), discarded,
              multiset(es[k + 1..]), CandEntries(r), dropped, es[k]);
    OfferCandidates(q, dist, ev, c, num, maxDist);
    if model {
      OfferDiscards(q, dist, ev, c, num, maxDist, discarded);
    }
  }

  /** Every entry below the frontier is at least the least key away. */
  lemma FrontierAbove<T>(q: Point, dist: (Point, Point) -> real, ps: seq<Pending<T>>)
    requires ps != [] && FrontierBounded(q, dist, ps)
    ensures forall e | e in PendingEntries(ps) :: ps[NearestIndex(ps)].bound <= dist(q, e.point)
  {
    forall e | e in PendingEntries(ps)
      ensures ps[NearestIndex(ps)].bound <= dist(q, e.point)
    {
      var i := InPendingEntries(ps, e);
      assert Bounded(q, dist, ps[i]);
    }
  }

  /** Every candidate entry is within `max_dist`. */
  lemma CandidatesWithin<T>(q: Point, dist: (Point, Point) -> real, ev: seq<Candidate<T>>, num: nat, maxDist: Limit)
    requires CandidatesOk(q, dist, ev, num, maxDist)
    ensures forall e | e in CandEntries(ev) :: InLimit(dist(q, e.point), maxDist)
  {
    forall e | e in CandEntries(ev)
      ensures InLimit(dist(q, e.point), maxDist)
    {
      var i := InCandEntries(ev, e);
    }
  }

  /**
    When the `nearest` loop stops, `num` candidates are held and every entry
    of the tree that is not among them is at least as far as the worst one.
   */
  lemma NearestDone<T>(all: multiset<Entry<T>>, q: Point, dist: (Point, Point) -> real, num: nat,
                       ps: seq<Pending<T>>, ev: seq<Candidate<T>>, discarded: multiset<Entry<T>>)
    requires 0 < num <= |all| && all == PendingEntries(ps) + CandEntries(ev) + discarded
    requires CandidatesOk(q, dist, ev, num, NoLimit) && FrontierBounded(q, dist, ps)
    requires DiscardOk(q, dist, discarded, ev, num, NoLimit)
    requires !(ps != [] && (|ev| < num || ps[NearestIndex(ps)].bound <= Worst(ev)))
    ensures |ev| == num
    ensures forall e | e in all - CandEntries(ev) :: Worst(ev) <= dist(q, e.point)
  {
    CandSize(ev);
    if ps != [] {
      assert |ev| >= num;
    } else if discarded != multiset{} {
      var e :| e in discarded;
      assert Beyond(dist(q, e.point), ev, num, NoLimit);
    } else {
      assert all == CandEntries(ev);
    }
    if ps != [] {
      FrontierAbove(q, dist, ps);
    }
    forall e | e in all - CandEntries(ev)
      ensures Worst(ev) <= dist(q, e.point)
    {
      assert e in PendingEntries(ps) || e in discarded;
      if e in discarded {
        assert Beyond(dist(q, e.point), ev, num, NoLimit);
      }
    }
  }

  /**
    When the `within` loop stops, the candidates are exactly the entries of
    the tree within the radius, with their multiplicities.
   */
  lemma WithinDone<T>(all: multiset<Entry<T>>, q: Point, dist: (Point, Point) -> real, radius: real,
                      ps: seq<Pending<T>>, ev: seq<Candidate<T>>, discarded: multiset<Entry<T>>)
    requires all == PendingEntries(ps) + CandEntries(ev) + discarded
    requires CandidatesOk(q, dist, ev, |all|, AtMost(radius)) && FrontierBounded(q, dist, ps)
    requires DiscardOk(q, dist, discarded, ev, |all|, AtMost(radius))
    requires !(ps != [] && ps[NearestIndex(ps)].bound <= radius)
    ensures forall e :: CandEntries(ev)[e] == if dist(q, e.point) <= radius then all[e] else 0
  {
    var num := |all|;
    CandSize(ev);
    CandidatesWithin(q, dist, ev, num, AtMost(radius));
    if ps != [] {
      FrontierAbove(q, dist, ps);
    }
    if |ev| == num {
      assert |PendingEntries(ps)| == 0 && |discarded| == 0;
      assert all == CandEntries(ev);
    } else {
      forall e: Entry<T> | dist(q, e.point) <= radius
        ensures CandEntries(ev)[e] == all[e]
      {
        assert e !in discarded;
        assert e !in PendingEntries(ps);
      }
    }
  }
}
