/**
  The branch-and-bound queries `nearest` and `within` and the step they
  share, `nearest_step`. The frontier (`pending`) and the bounded set of
  candidates (`evaluated`) are sequences; taking the least key, or the worst
  candidate, is a search for its index.
 */
module Search {
  import opened Geometry
  import opened Nodes
  import opened SearchDefs
  import opened SearchLemmas

  /** A candidate no farther than any of an ascending sequence may lead it. */
  lemma AscendingCons<T>(x: Candidate<T>, t: seq<Candidate<T>>)
    requires Ascending(t) && forall y | y in t :: x.distance <= y.distance
    ensures Ascending([x] + t)
  {
    var r := [x] + t;
    forall i, j | 0 <= i < j < |r|
      ensures r[i].distance <= r[j].distance
    {
      assert r[j] == t[j - 1];
      if i > 0 {
        assert r[i] == t[i - 1];
      }
    }
  }

  /** Inserting one candidate into an ascending sequence. */
  function Insert<T>(c: Candidate<T>, s: seq<Candidate<T>>): (r: seq<Candidate<T>>)
    requires Ascending(s)
    ensures Ascending(r) && multiset(r) == multiset(s) + multiset{c}
  {
    if s == [] || c.distance <= s[0].distance then
      AscendingCons(c, s);
      [c] + s
    else
      var t := Insert(c, s[1..]);
      InsertBehind(c, s, t);
      [s[0]] + t
  }

  /** Putting the head of `s` before the tail with `c` inserted keeps the order and the candidates. */
  lemma InsertBehind<T>(c: Candidate<T>, s: seq<Candidate<T>>, t: seq<Candidate<T>>)
    requires Ascending(s) && s != [] && s[0].distance < c.distance
    requires Ascending(t) && multiset(t) == multiset(s[1..]) + multiset{c}
    ensures Ascending([s[0]] + t) && multiset([s[0]] + t) == multiset(s) + multiset{c}
  {
    assert s == [s[0]] + s[1..];
    forall y | y in t
      ensures s[0].distance <= y.distance
    {
      assert y in multiset(t);
    }
    AscendingCons(s[0], t);
  }

  /** Inserting a candidate adds its entry. */
  lemma {:induction false} InsertEntries<T>(c: Candidate<T>, s: seq<Candidate<T>>)
    requires Ascending(s)
    ensures CandEntries(Insert(c, s)) == CandEntries(s) + multiset{c.entry}
    decreases |s|
  {
    if s == [] || c.distance <= s[0].distance {
      assert ([c] + s)[1..] == s;
    } else {
      var t := Insert(c, s[1..]);
      assert ([s[0]] + t)[1..] == t;
      InsertEntries(c, s[1..]);
    }
  }

  /** `into_sorted_vec`: the candidates in ascending order of distance. */
  function SortAscending<T>(cs: seq<Candidate<T>>): (r: seq<Candidate<T>>)
    ensures Ascending(r) && multiset(r) == multiset(cs)
    ensures CandEntries(r) == CandEntries(cs)
    decreases |cs|
  {
    if cs == [] then []
    else
      assert cs == [cs[0]] + cs[1..];
      InsertEntries(cs[0], SortAscending(cs[1..]));
      Insert(cs[0], SortAscending(cs[1..]))
  }

  /** With no `max_dist`, an offer never shortens the candidates and drops nothing while there is room. */
  lemma OfferUnlimited<T>(ev: seq<Candidate<T>>, c: Candidate<T>, num: nat)
    requires |ev| <= num && 0 < num
    ensures |Offer(ev, c, num, NoLimit)| >= |ev|
    ensures |ev| < num ==> Dropped(ev, c, num, NoLimit) == multiset{}
  {
  }

  /** With no `max_dist`, an emptied frontier and nothing dropped leaves every entry among the candidates. */
  lemma NearestFull<T>(all: multiset<Entry<T>>, ps: seq<Pending<T>>, ev: seq<Candidate<T>>,
                       discarded: multiset<Entry<T>>, k: nat)
    requires all == PendingEntries(ps) + multiset{} + CandEntries(ev) + discarded
    requires k <= |all| && |ev| <= k && (|ev| < k ==> discarded == multiset{})
    requires ps == [] || k <= |ev|
    ensures |ev| == k
  {
    CandSize(ev);
  }

  /**
    `ps'` is `ps` followed by subtrees pushed with the bound of their box,
    each bound within `cutoff`: the rule `nearest_step` pushes siblings by.
   */
  ghost predicate PushedWithin<T>(q: Point, toSpace: (Point, Box) -> real, cutoff: Limit,
                                  ps: seq<Pending<T>>, ps': seq<Pending<T>>)
  {
    |ps| <= |ps'| && ps'[..|ps|] == ps &&
    forall j :: |ps| <= j < |ps'| ==> ps'[j].bound == toSpace(q, ps'[j].node.box) && InLimit(ps'[j].bound, cutoff)
  }

  /** Pushing one more subtree with the bound of its box, within the cutoff, keeps the rule. */
  lemma PushWithin<T>(q: Point, toSpace: (Point, Box) -> real, cutoff: Limit,
                      ps: seq<Pending<T>>, ps': seq<Pending<T>>, n: Node<T>)
    requires PushedWithin(q, toSpace, cutoff, ps, ps') && InLimit(toSpace(q, n.box), cutoff)
    ensures PushedWithin(q, toSpace, cutoff, ps, ps' + [Pending(toSpace(q, n.box), n)])
  {
    assert (ps' + [Pending(toSpace(q, n.box), n)])[..|ps|] == ps'[..|ps|];
  }

  /**
    The descent loop of `nearest_step`: walk down from `curr` to the leaf
    the query point belongs in, pushing each sibling whose lower bound is
    within `cutoff` and leaving the others out. With no `max_dist` and room
    for more candidates the cutoff admits everything, so nothing is left out.
   */
  method Descend<T>(ghost root: Node<T>, ghost dim: nat, ghost cap: nat, q: Point, num: nat, maxDist: Limit,
                    dist: (Point, Point) -> real, toSpace: (Point, Box) -> real, cutoff: Limit,
                    ps: seq<Pending<T>>, curr: Node<T>, ev: seq<Candidate<T>>, ghost discarded: multiset<Entry<T>>,
                    ghost model: bool)
    returns (ps': seq<Pending<T>>, leaf: Node<T>, ghost discarded': multiset<Entry<T>>)
    requires |q| == dim && cutoff == Cutoff(ev, num, maxDist) && Valid(curr, dim, cap)
    requires Tracking(root, dim, cap, q, dist, model, num, maxDist, ps, Entries(curr), ev, discarded)
    requires model ==> Admissible(q, dist, toSpace)
    ensures leaf.Leaf? && Valid(leaf, dim, cap)
    ensures Tracking(root, dim, cap, q, dist, model, num, maxDist, ps', Entries(leaf), ev, discarded')
    ensures PendingCount(ps') + NodeCount(leaf) <= PendingCount(ps) + NodeCount(curr)
    ensures maxDist.NoLimit? && |ev| < num ==> discarded' == discarded
    ensures PushedWithin(q, toSpace, cutoff, ps, ps')
  {
    ps', leaf, discarded' := ps, curr, discarded;
    while leaf.Stem?
      invariant Tracking(root, dim, cap, q, dist, model, num, maxDist, ps', Entries(leaf), ev, discarded')
      invariant Valid(leaf, dim, cap)
      invariant PendingCount(ps') + NodeCount(leaf) <= PendingCount(ps) + NodeCount(curr)
      invariant maxDist.NoLimit? && |ev| < num ==> discarded' == discarded
      invariant PushedWithin(q, toSpace, cutoff, ps, ps')
      decreases leaf
    {
      var candidate, next;
      if BelongsInLeft(leaf, q) {
        candidate, next := leaf.right, leaf.left;
      } else {
        candidate, next := leaf.left, leaf.right;
      }
      var bound := toSpace(q, candidate.box);
      if InLimit(bound, cutoff) {
        DescendPush(root, dim, cap, q, dist, toSpace, model, num, maxDist, ps', leaf, ev, discarded', next, candidate);
        PushWithin(q, toSpace, cutoff, ps, ps', candidate);
        ps' := ps' + [Pending(bound, candidate)];
      } else {
        DescendPrune(root, dim, cap, q, dist, toSpace, model, num, maxDist, ps', leaf, ev, discarded', next, candidate);
        discarded' := discarded' + Entries(candidate);
      }
      leaf := next;
    }
  }

  /**
    `nearest_step`: pop the frontier element of least key, compute the
    cutoff once, walk down to the leaf the query point belongs in (pushing
    each sibling whose lower bound is within the cutoff), then offer every
    entry of that leaf, in order, to the candidates. `root`, `discarded`
    and `model` exist for the proof only.
   */
  method NearestStep<T>(ghost root: Node<T>, ghost dim: nat, ghost cap: nat, q: Point, num: nat, maxDist: Limit,
                        dist: (Point, Point) -> real, toSpace: (Point, Box) -> real,
                        ps: seq<Pending<T>>, ev: seq<Candidate<T>>, ghost discarded: multiset<Entry<T>>, ghost model: bool)
    returns (ps': seq<Pending<T>>, ev': seq<Candidate<T>>, ghost discarded': multiset<Entry<T>>)
    requires ps != [] && 0 < num && |q| == dim
    requires Tracking(root, dim, cap, q, dist, model, num, maxDist, ps, multiset{}, ev, discarded)
    requires model ==> Admissible(q, dist, toSpace)
    ensures Tracking(root, dim, cap, q, dist, model, num, maxDist, ps', multiset{}, ev', discarded')
    ensures PendingCount(ps') < PendingCount(ps)
    ensures maxDist.NoLimit? ==> |ev'| >= |ev| && (|ev'| < num ==> discarded' == discarded)
    ensures PushedWithin(q, toSpace, Cutoff(ev, num, maxDist), RemoveAt(ps, NearestIndex(ps)), ps')
  {
    var i := NearestIndex(ps);
    PopOk(root, dim, cap, q, dist, model, num, maxDist, ps, ev, discarded, i);
    var cutoff := Cutoff(ev, num, maxDist);
    var curr;
    ps', curr, discarded' := Descend(root, dim, cap, q, num, maxDist, dist, toSpace, cutoff,
                                     RemoveAt(ps, i), ps[i].node, ev, discarded, model);
    ev', discarded' := ScanLeaf(root, dim, cap, q, num, maxDist, dist, ps', curr.entries, ev, discarded', model);
  }

  /**
    The leaf loop of `nearest_step`: offer every entry of the leaf, in
    order, to the candidates. With no `max_dist` the candidates never get
    fewer, and nothing is dropped while there is room for more.
   */
  method ScanLeaf<T>(ghost root: Node<T>, ghost dim: nat, ghost cap: nat, q: Point, num: nat, maxDist: Limit,
                     dist: (Point, Point) -> real, ghost ps: seq<Pending<T>>, es: seq<Entry<T>>,
                     ev: seq<Candidate<T>>, ghost discarded: multiset<Entry<T>>, ghost model: bool)
    returns (ev': seq<Candidate<T>>, ghost discarded': multiset<Entry<T>>)
    requires 0 < num
    requires Tracking(root, dim, cap, q, dist, model, num, maxDist, ps, multiset(es), ev, discarded)
    ensures Tracking(root, dim, cap, q, dist, model, num, maxDist, ps, multiset{}, ev', discarded')
    ensures maxDist.NoLimit? ==> |ev'| >= |ev| && (|ev'| < num ==> discarded' == discarded)
  {
    assert es[0..] == es;
    ev', discarded' := ev, discarded;
    for k := 0 to |es|
      invariant Tracking(root, dim, cap, q, dist, model, num, maxDist, ps, multiset(es[k..]), ev', discarded')
      invariant maxDist.NoLimit? ==> |ev'| >= |ev| && (|ev'| < num ==> discarded' == discarded)
    {
      var c := Candidate(dist(q, es[k].point), es[k]);
      Scan(root, dim, cap, q, dist, model, num, maxDist, ps, es, k, ev', discarded');
      if maxDist.NoLimit? {
        OfferUnlimited(ev', c, num);
      }
      discarded' := discarded' + Dropped(ev', c, num, maxDist);
      ev' := Offer(ev', c, num, maxDist);
    }
    assert es[|es|..] == [];
  }

  /**
    What `nearest` promises with `k = min(num, size)`: the answer is
    ascending, exactly `k` long, taken from the tree and carries true
    distances; under the caller's contract no entry of the tree left out of
    it is nearer than any entry in it.
   */
  ghost predicate NearestAnswer<T>(all: multiset<Entry<T>>, q: Point, dist: (Point, Point) -> real,
                                   toSpace: (Point, Box) -> real, k: nat, r: seq<Candidate<T>>)
  {
    |r| == k && Ascending(r) && CandEntries(r) <= all &&
    (forall i | 0 <= i < |r| :: r[i].distance == dist(q, r[i].entry.point)) &&
    (Admissible(q, dist, toSpace) ==>
       forall e | e in all - CandEntries(r) :: forall i | 0 <= i < |r| :: r[i].distance <= dist(q, e.point))
  }

  /**
    What `within` promises: the answer is ascending, taken from the tree,
    carries true distances and lies within the radius; under the caller's
    contract it holds every entry of the tree within the radius, as often as
    the tree holds it, and nothing else.
   */
  ghost predicate WithinAnswer<T>(all: multiset<Entry<T>>, q: Point, dist: (Point, Point) -> real,
                                  toSpace: (Point, Box) -> real, radius: real, r: seq<Candidate<T>>)
  {
    Ascending(r) && CandEntries(r) <= all &&
    (forall i | 0 <= i < |r| :: r[i].distance == dist(q, r[i].entry.point) && r[i].distance <= radius) &&
    (Admissible(q, dist, toSpace) ==>
       forall e | e in all :: CandEntries(r)[e] == if dist(q, e.point) <= radius then all[e] else 0)
  }

  /** Sorting keeps every candidate, so each sorted one is right and no farther than the worst. */
  lemma SortedCandidates<T>(q: Point, dist: (Point, Point) -> real, ev: seq<Candidate<T>>, num: nat, maxDist: Limit)
    requires CandidatesOk(q, dist, ev, num, maxDist)
    ensures var r := SortAscending(ev);
            |r| == |ev| &&
            (forall i | 0 <= i < |r| :: r[i].distance == dist(q, r[i].entry.point) && InLimit(r[i].distance, maxDist)) &&
            (ev != [] ==> forall i | 0 <= i < |r| :: r[i].distance <= Worst(ev))
  {
    var r := SortAscending(ev);
    assert |r| == |multiset(r)|;
    forall i | 0 <= i < |r|
      ensures r[i] in ev
    {
      assert r[i] in multiset(r);
    }
  }

  /** Sorting the candidates held when the `nearest` loop stops gives its answer. */
  lemma NearestSorted<T>(all: multiset<Entry<T>>, q: Point, dist: (Point, Point) -> real,
                         toSpace: (Point, Box) -> real, k: nat, ev: seq<Candidate<T>>)
    requires CandidatesOk(q, dist, ev, k, NoLimit) && |ev| == k && CandEntries(ev) <= all
    requires Admissible(q, dist, toSpace) ==>
               ev != [] && forall e | e in all - CandEntries(ev) :: Worst(ev) <= dist(q, e.point)
    ensures NearestAnswer(all, q, dist, toSpace, k, SortAscending(ev))
  {
    var r := SortAscending(ev);
    SortedCandidates(q, dist, ev, k, NoLimit);
    if Admissible(q, dist, toSpace) {
      forall e | e in all - CandEntries(r)
        ensures forall i | 0 <= i < |r| :: r[i].distance <= dist(q, e.point)
      {
        assert Worst(ev) <= dist(q, e.point);
      }
    }
  }

  /**
    When the `nearest` loop stops, sorting the candidates gives its answer.
    Nothing is dropped before `k` candidates are held, so an emptied
    frontier leaves every entry of the tree among the candidates.
   */
  lemma NearestExit<T>(root: Node<T>, dim: nat, cap: nat, q: Point, dist: (Point, Point) -> real,
                       toSpace: (Point, Box) -> real, k: nat, ps: seq<Pending<T>>, ev: seq<Candidate<T>>,
                       discarded: multiset<Entry<T>>)
    requires 0 < k <= |Entries(root)|
    requires Tracking(root, dim, cap, q, dist, Admissible(q, dist, toSpace), k, NoLimit, ps, multiset{}, ev, discarded)
    requires |ev| < k ==> discarded == multiset{}
    requires !(ps != [] && (|ev| < k || ps[NearestIndex(ps)].bound <= Worst(ev)))
    ensures NearestAnswer(Entries(root), q, dist, toSpace, k, SortAscending(ev))
  {
    var all := Entries(root);
    NearestFull(all, ps, ev, discarded, k);
    if Admissible(q, dist, toSpace) {
      NearestDone(all, q, dist, k, ps, ev, discarded);
    }
    assert CandEntries(ev) <= all;
    NearestSorted(all, q, dist, toSpace, k, ev);
  }

  /** Sorting the candidates held when the `within` loop stops gives its answer. */
  lemma WithinSorted<T>(all: multiset<Entry<T>>, q: Point, dist: (Point, Point) -> real,
                        toSpace: (Point, Box) -> real, num: nat, radius: real, ev: seq<Candidate<T>>)
    requires CandidatesOk(q, dist, ev, num, AtMost(radius)) && CandEntries(ev) <= all
    requires Admissible(q, dist, toSpace) ==>
               forall e :: CandEntries(ev)[e] == if dist(q, e.point) <= radius then all[e] else 0
    ensures WithinAnswer(all, q, dist, toSpace, radius, SortAscending(ev))
  {
    SortedCandidates(q, dist, ev, num, AtMost(radius));
  }

  /**
    `nearest`: a query point with a non-finite coordinate is refused. With
    `k = min(num, size)`, nothing is sought when `k` is 0; otherwise steps
    run while the frontier is not empty and either fewer than `k`
    candidates are held or the least key is no farther than the worst one.
   */
  method Nearest<T>(t: KdTree<T>, point: seq<Coord>, num: nat, dist: (Point, Point) -> real, toSpace: (Point, Box) -> real)
    returns (res: Result<seq<Candidate<T>>>)
    requires ValidTree(t) && |point| == t.dim
    ensures !AllFinite(point) ==> res == Err(NonFiniteCoordinate)
    ensures AllFinite(point) ==>
              res.Ok? && NearestAnswer(Entries(t.root), CheckPoint(point).value, dist, toSpace,
                                       if num < t.root.size then num else t.root.size, res.value)
  {
    var checked := CheckPoint(point);
    if checked.Err? {
      return Err(checked.error);
    }
    var q := checked.value;
    var k := if num < t.root.size then num else t.root.size;
    if k == 0 {
      return Ok([]);
    }
    ghost var model := Admissible(q, dist, toSpace);
    Start(t.root, t.dim, t.capacity, q, dist, toSpace, model, k, NoLimit);
    var ps := [Pending(0.0, t.root)];
    var ev: seq<Candidate<T>> := [];
    ghost var discarded: multiset<Entry<T>> := multiset{};
    while ps != [] && (|ev| < k || ps[NearestIndex(ps)].bound <= Worst(ev))
      invariant Tracking(t.root, t.dim, t.capacity, q, dist, model, k, NoLimit, ps, multiset{}, ev, discarded)
      invariant |ev| < k ==> discarded == multiset{}
      decreases PendingCount(ps)
    {
      ps, ev, discarded := NearestStep(t.root, t.dim, t.capacity, q, k, NoLimit, dist, toSpace, ps, ev, discarded, model);
    }
    NearestExit(t.root, t.dim, t.capacity, q, dist, toSpace, k, ps, ev, discarded);
    // `take(num)` keeps everything: at most `k` candidates are ever held.
    res := Ok(SortAscending(ev));
  }

  /**
    `within`: a query point with a non-finite coordinate is refused; an
    empty tree answers nothing. Otherwise steps run, with room for every
    entry as a candidate and the radius as `max_dist`, while the frontier
    is not empty and its least key is within the radius.
   */
  method Within<T>(t: KdTree<T>, point: seq<Coord>, radius: real, dist: (Point, Point) -> real, toSpace: (Point, Box) -> real)
    returns (res: Result<seq<Candidate<T>>>)
    requires ValidTree(t) && |point| == t.dim
    ensures !AllFinite(point) ==> res == Err(NonFiniteCoordinate)
    ensures AllFinite(point) ==>
              res.Ok? && WithinAnswer(Entries(t.root), CheckPoint(point).value, dist, toSpace, radius, res.value)
  {
    var checked := CheckPoint(point);
    if checked.Err? {
      return Err(checked.error);
    }
    var q := checked.value;
    if t.root.size == 0 {
      return Ok([]);
    }
    var num := t.root.size;
    ghost var model := Admissible(q, dist, toSpace);
    Start(t.root, t.dim, t.capacity, q, dist, toSpace, model, num, AtMost(radius));
    var ps := [Pending(0.0, t.root)];
    var ev: seq<Candidate<T>> := [];
    ghost var discarded: multiset<Entry<T>> := multiset{};
    while ps != [] && ps[NearestIndex(ps)].bound <= radius
      invariant Tracking(t.root, t.dim, t.capacity, q, dist, model, num, AtMost(radius), ps, multiset{}, ev, discarded)
      decreases PendingCount(ps)
    {
      ps, ev, discarded := NearestStep(t.root, t.dim, t.capacity, q, num, AtMost(radius), dist, toSpace, ps, ev, discarded, model);
    }
    if model {
      WithinDone(Entries(t.root), q, dist, radius, ps, ev, discarded);
    }
    WithinSorted(Entries(t.root), q, dist, toSpace, num, radius, ev);
    res := Ok(SortAscending(ev));
  }
}
