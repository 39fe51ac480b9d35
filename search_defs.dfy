/**
  The vocabulary of the branch-and-bound queries: the caller's distance and
  the lower bound `distance_to_space_const` derives from it, the frontier of
  pending subtrees, the evaluated candidates, and the bookkeeping that says
  where every entry of the tree is while a query runs.
 */
module SearchDefs {
  import opened Geometry
  import opened Nodes

  /** `max_dist`: `A::infinity()` in `nearest`, the radius in `within`. */
  datatype Limit = NoLimit | AtMost(r: real)

  predicate InLimit(x: real, l: Limit)
  {
    l.NoLimit? || x <= l.r
  }

  /** A frontier element: a subtree and the key it was pushed with. */
  datatype Pending<T> = Pending(bound: real, node: Node<T>)

  /** An evaluated element: an entry and its distance to the query point. */
  datatype Candidate<T> = Candidate(distance: real, entry: Entry<T>)

  /**
    The caller's contract: distances to the query point are never
    negative, and the bound computed for a box never exceeds the distance
    to any point inside it.
   */
  ghost predicate Admissible(q: Point, dist: (Point, Point) -> real, toSpace: (Point, Box) -> real)
  {
    (forall p :: 0.0 <= dist(q, p)) &&
    (forall p, b | InBox(p, b) :: toSpace(q, b) <= dist(q, p))
  }

  /** The entries of every subtree on the frontier. */
  ghost function PendingEntries<T>(ps: seq<Pending<T>>): multiset<Entry<T>>
  {
    if ps == [] then multiset{} else Entries(ps[0].node) + PendingEntries(ps[1..])
  }

  /** The entries of the candidates. */
  ghost function CandEntries<T>(cs: seq<Candidate<T>>): multiset<Entry<T>>
  {
    if cs == [] then multiset{} else multiset{cs[0].entry} + CandEntries(cs[1..])
  }

  /** The number of nodes of a subtree: what the traversal loops use up. */
  function NodeCount<T>(n: Node<T>): nat
  {
    match n
    case Leaf(_, _, _) => 1
    case Stem(_, _, _, _, l, r) => 1 + NodeCount(l) + NodeCount(r)
  }

  function PendingCount<T>(ps: seq<Pending<T>>): nat
  {
    if ps == [] then 0 else NodeCount(ps[0].node) + PendingCount(ps[1..])
  }

  function RemoveAt<X>(s: seq<X>, i: nat): seq<X>
    requires i < |s|
  {
    s[..i] + s[i + 1..]
  }

  /** The element `BinaryHeap::pop` takes from the frontier: a least key (the first one). */
  function NearestIndex<T>(ps: seq<Pending<T>>): (i: nat)
    requires ps != []
    ensures i < |ps| && forall j :: 0 <= j < |ps| ==> ps[i].bound <= ps[j].bound
  {
    if |ps| == 1 then 0
    else
      var k := NearestIndex(ps[1..]) + 1;
      assert forall j :: 1 <= j < |ps| ==> ps[j] == ps[1..][j - 1];
      if ps[0].bound <= ps[k].bound then 0 else k
  }

  /** The element `BinaryHeap::peek` shows of the evaluated set: a greatest distance (the first one). */
  function WorstIndex<T>(cs: seq<Candidate<T>>): (i: nat)
    requires cs != []
    ensures i < |cs| && forall j :: 0 <= j < |cs| ==> cs[j].distance <= cs[i].distance
  {
    if |cs| == 1 then 0
    else
      var k := WorstIndex(cs[1..]) + 1;
      assert forall j :: 1 <= j < |cs| ==> cs[j] == cs[1..][j - 1];
      if cs[0].distance >= cs[k].distance then 0 else k
  }

  function Worst<T>(cs: seq<Candidate<T>>): real
    requires cs != []
  {
    cs[WorstIndex(cs)].distance
  }

  /** The best candidate: a least distance. */
  function BestIndex<T>(cs: seq<Candidate<T>>): (i: nat)
    requires cs != []
    ensures i < |cs| && forall j :: 0 <= j < |cs| ==> cs[i].distance <= cs[j].distance
  {
    if |cs| == 1 then 0
    else
      var k := BestIndex(cs[1..]) + 1;
      assert forall j :: 1 <= j < |cs| ==> cs[j] == cs[1..][j - 1];
      if cs[0].distance <= cs[k].distance then 0 else k
  }

  /**
    `evaluated_dist`: once `num` candidates are held, the cutoff is the
    smaller of `max_dist` and the worst candidate; before that it is
    `max_dist`.
   */
  function Cutoff<T>(ev: seq<Candidate<T>>, num: nat, maxDist: Limit): Limit
  {
    if |ev| == num && ev != [] then
      match maxDist
      case NoLimit => AtMost(Worst(ev))
      case AtMost(r) => AtMost(Min(r, Worst(ev)))
    else maxDist
  }

  /**
    An entry at distance `d` may be left out of the answer: it lies beyond
    `max_dist`, or `num` candidates are held and none is farther than it.
   */
  ghost predicate Beyond<T>(d: real, ev: seq<Candidate<T>>, num: nat, maxDist: Limit)
  {
    !InLimit(d, maxDist) || (|ev| == num && ev != [] && Worst(ev) <= d)
  }

  predicate Ascending<T>(cs: seq<Candidate<T>>)
  {
    forall i, j :: 0 <= i < j < |cs| ==> cs[i].distance <= cs[j].distance
  }

  /** Every entry below the frontier element is at least its key away. */
  ghost predicate Bounded<T>(q: Point, dist: (Point, Point) -> real, p: Pending<T>)
  {
    forall e | e in Entries(p.node) :: p.bound <= dist(q, e.point)
  }

  /** Every frontier subtree is a valid subtree of the tree. */
  ghost predicate FrontierValid<T>(ps: seq<Pending<T>>, dim: nat, cap: nat)
  {
    forall i :: 0 <= i < |ps| ==> Valid(ps[i].node, dim, cap)
  }

  /** Every frontier key is a lower bound (under the caller's contract). */
  ghost predicate FrontierBounded<T>(q: Point, dist: (Point, Point) -> real, ps: seq<Pending<T>>)
  {
    forall i :: 0 <= i < |ps| ==> Bounded(q, dist, ps[i])
  }

  /** Every candidate carries its true distance and lies within `max_dist`. */
  ghost predicate CandidatesOk<T>(q: Point, dist: (Point, Point) -> real, ev: seq<Candidate<T>>, num: nat, maxDist: Limit)
  {
    |ev| <= num &&
    forall i :: 0 <= i < |ev| ==> ev[i].distance == dist(q, ev[i].entry.point) && InLimit(ev[i].distance, maxDist)
  }

  /** Every discarded entry may be left out of the answer. */
  ghost predicate DiscardOk<T>(q: Point, dist: (Point, Point) -> real, discarded: multiset<Entry<T>>,
                               ev: seq<Candidate<T>>, num: nat, maxDist: Limit)
  {
    forall e | e in discarded :: Beyond(dist(q, e.point), ev, num, maxDist)
  }

  /**
    `evaluated.push`/`pop` for one leaf entry `c`: an entry beyond `max_dist`
    is ignored; while fewer than `num` are held it is added; once `num` are
    held it replaces the worst one only if it is strictly nearer.
   */
  function Offer<T>(ev: seq<Candidate<T>>, c: Candidate<T>, num: nat, maxDist: Limit): (r: seq<Candidate<T>>)
    requires |ev| <= num && 0 < num
    ensures |r| <= num
    ensures |ev| == num ==> |r| == num && Worst(r) <= Worst(ev)
    ensures forall x | x in r :: x in ev || x == c
    ensures c !in ev ==> (c in r <==> InLimit(c.distance, maxDist) && (|ev| < num || c.distance < Worst(ev)))
    ensures !InLimit(c.distance, maxDist) ==> r == ev
    ensures |ev| == num && Worst(ev) <= c.distance ==> r == ev
  {
    if !InLimit(c.distance, maxDist) then ev
    else if |ev| < num then ev + [c]
    else if c.distance < Worst(ev) then
      var w := WorstIndex(ev);
      var r := RemoveAt(ev, w) + [c];
      assert forall j :: 0 <= j < |r| - 1 ==> r[j] == ev[if j < w then j else j + 1];
      assert r[WorstIndex(r)].distance <= Worst(ev);
      r
    else ev
  }

  /** The entry `Offer` lets go of: `c` itself, the worst candidate it displaces, or none. */
  ghost function Dropped<T>(ev: seq<Candidate<T>>, c: Candidate<T>, num: nat, maxDist: Limit): multiset<Entry<T>>
    requires |ev| <= num && 0 < num
  {
    if !InLimit(c.distance, maxDist) then multiset{c.entry}
    else if |ev| < num then multiset{}
    else if c.distance < Worst(ev) then multiset{ev[WorstIndex(ev)].entry}
    else multiset{c.entry}
  }

  /**
    The invariant of the query loops. Every entry of the tree is below a
    frontier subtree, `held` (the subtree or leaf entries a step is working
    on), among the candidates, or discarded; the candidates are right; and,
    when the caller's contract holds, the frontier keys are lower bounds and
    every discarded entry may be left out.
   */
  ghost predicate Tracking<T>(root: Node<T>, dim: nat, cap: nat, q: Point, dist: (Point, Point) -> real, model: bool,
                              num: nat, maxDist: Limit, ps: seq<Pending<T>>, held: multiset<Entry<T>>,
                              ev: seq<Candidate<T>>, discarded: multiset<Entry<T>>)
  {
    Entries(root) == PendingEntries(ps) + held + CandEntries(ev) + discarded &&
    FrontierValid(ps, dim, cap) && CandidatesOk(q, dist, ev, num, maxDist) &&
    (model ==> FrontierBounded(q, dist, ps) && DiscardOk(q, dist, discarded, ev, num, maxDist))
  }
}
