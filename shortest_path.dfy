/** Dijkstra's algorithm over the complete graph whose nodes are the points of a path and
    whose edge weights are the distances between them. The weight function is a parameter,
    only required to be non-negative; the Euclidean distance is one such function. */
module ShortestPath {
  import opened Wrappers

  type Point = (real, real)

  /** A weight between two points. */
  type Weight = (Point, Point) -> real

  ghost predicate NonNegative(w: Weight)
  {
    forall p, q :: 0.0 <= w(p, q)
  }

  function SquaredDistance(p: Point, q: Point): real
  {
    (p.0 - q.0) * (p.0 - q.0) + (p.1 - q.1) * (p.1 - q.1)
  }

  /** `w` is the Euclidean distance: the non-negative square root of the squared distance. */
  ghost predicate IsEuclidean(w: Weight)
  {
    forall p, q :: 0.0 <= w(p, q) && w(p, q) * w(p, q) == SquaredDistance(p, q)
  }

  lemma PositiveProduct(x: real, y: real)
    requires 0.0 < x && 0.0 < y
    ensures 0.0 < x * y
  {
  }

  /** A non-negative number is determined by its square. */
  lemma SquareRootUnique(a: real, b: real)
    requires 0.0 <= a && 0.0 <= b && a * a == b * b
    ensures a == b
  {
    if a < b {
      PositiveProduct(b - a, b + a);
    } else if b < a {
      PositiveProduct(a - b, a + b);
    }
  }

  /** The Euclidean distance is a weight the search can use, and it is symmetric and zero
      from a point to itself. */
  lemma EuclideanWeight(w: Weight)
    requires IsEuclidean(w)
    ensures NonNegative(w)
    ensures forall p, q :: w(p, q) == w(q, p)
    ensures forall p :: w(p, p) == 0.0
  {
    forall p, q
      ensures w(p, q) == w(q, p)
    {
      assert SquaredDistance(p, q) == SquaredDistance(q, p);
      SquareRootUnique(w(p, q), w(q, p));
    }
    forall p
      ensures w(p, p) == 0.0
    {
      assert SquaredDistance(p, p) == 0.0;
      SquareRootUnique(w(p, p), 0.0);
    }
  }

  /** A best-known distance: a number, or the initial infinity. */
  datatype Distance = Finite(value: real) | Infinite

  /** `x < d`, with every number below infinity. */
  predicate Below(x: real, d: Distance)
  {
    d.Infinite? || x < d.value
  }

  /** `a <= b` on distances. */
  predicate AtMost(a: Distance, b: Distance)
  {
    b.Infinite? || (a.Finite? && a.value <= b.value)
  }

  /** The weight of the edge from node `i` to node `j`. */
  function Wt(nodes: seq<Point>, w: Weight, i: nat, j: nat): real
    requires i < |nodes| && j < |nodes|
  {
    w(nodes[i], nodes[j])
  }

  /** A walk in the complete graph: a non-empty sequence of node indices. */
  predicate IsPath(n: nat, p: seq<nat>)
  {
    p != [] && forall i :: 0 <= i < |p| ==> p[i] < n
  }

  function Last(p: seq<nat>): nat
    requires p != []
  {
    p[|p| - 1]
  }

  predicate Distinct(p: seq<nat>)
  {
    forall i, j :: 0 <= i < j < |p| ==> p[i] != p[j]
  }

  /** The sum of the weights of the consecutive edges of `p`. */
  function PathWeight(nodes: seq<Point>, w: Weight, p: seq<nat>): real
    requires IsPath(|nodes|, p)
  {
    if |p| == 1 then 0.0
    else PathWeight(nodes, w, p[..|p| - 1]) + Wt(nodes, w, p[|p| - 2], p[|p| - 1])
  }

  /** Prepending a node adds the weight of the first edge. */
  lemma {:induction false} PathWeightCons(nodes: seq<Point>, w: Weight, c: nat, p: seq<nat>)
    requires IsPath(|nodes|, p) && c < |nodes|
    ensures IsPath(|nodes|, [c] + p)
    ensures PathWeight(nodes, w, [c] + p) == Wt(nodes, w, c, p[0]) + PathWeight(nodes, w, p)
    decreases |p|
  {
    var q := [c] + p;
    if |p| > 1 {
      var init := p[..|p| - 1];
      assert q[..|q| - 1] == [c] + init;
      PathWeightCons(nodes, w, c, init);
    } else {
      assert q[..|q| - 1] == [c];
    }
  }

  /** With non-negative weights, a walk weighs at least as much as any of its prefixes. */
  lemma {:induction false} PathWeightGrows(nodes: seq<Point>, w: Weight, p: seq<nat>, k: nat)
    requires NonNegative(w) && IsPath(|nodes|, p) && 0 < k <= |p|
    ensures PathWeight(nodes, w, p[..k]) <= PathWeight(nodes, w, p)
    decreases |p|
  {
    if k < |p| {
      var init := p[..|p| - 1];
      assert init[..k] == p[..k];
      PathWeightGrows(nodes, w, init, k);
      assert 0.0 <= Wt(nodes, w, p[|p| - 2], p[|p| - 1]);
    } else {
      assert p[..k] == p;
    }
  }

  /** `p` with its elements in the opposite order. */
  function Reverse(p: seq<nat>): (r: seq<nat>)
    ensures |r| == |p| && forall i :: 0 <= i < |p| ==> r[i] == p[|p| - 1 - i]
  {
    if p == [] then [] else [p[|p| - 1]] + Reverse(p[..|p| - 1])
  }

  /** A heap entry: a tentative distance and the node it was found for. */
  type Entry = (real, nat)

  /** Python's tuple order on entries: by distance, then by node. */
  predicate NotAfter(a: Entry, b: Entry)
  {
    a.0 < b.0 || (a.0 == b.0 && a.1 <= b.1)
  }

  /** The position of the entry `heappop` removes: the least one in tuple order. */
  function MinIndex(heap: seq<Entry>): (k: nat)
    requires heap != []
    ensures k < |heap| && forall j :: 0 <= j < |heap| ==> NotAfter(heap[k], heap[j])
  {
    if |heap| == 1 then 0
    else
      var k := MinIndex(heap[..|heap| - 1]);
      if NotAfter(heap[k], heap[|heap| - 1]) then k else |heap| - 1
  }

  /** `s` without its element at position `k`. */
  function Remove(s: seq<Entry>, k: nat): (r: seq<Entry>)
    requires k < |s|
    ensures |r| == |s| - 1
    ensures forall e :: e in r ==> e in s
    ensures forall e :: e in s && e != s[k] ==> e in r
  {
    s[..k] + s[k + 1..]
  }

  /** The search's mutable state: distances, predecessors and the heap. */
  datatype Search = Search(dist: seq<Distance>, prev: seq<Option<nat>>, heap: seq<Entry>)

  predicate Sized(n: nat, s: Search)
  {
    |s.dist| == n && |s.prev| == n
  }

  /** One relaxation: node `u` offers node `v` the distance through it, taken when strictly
      shorter; a node never relaxes itself. */
  function Relax(nodes: seq<Point>, w: Weight, u: nat, v: nat, s: Search): (r: Search)
    requires u < |nodes| && v < |nodes| && Sized(|nodes|, s) && s.dist[u].Finite?
    ensures Sized(|nodes|, r) && r.dist[u] == s.dist[u]
  {
    if v == u then s
    else
      var nd := s.dist[u].value + Wt(nodes, w, u, v);
      if Below(nd, s.dist[v]) then
        Search(s.dist[v := Finite(nd)], s.prev[v := Some(u)], s.heap + [(nd, v)])
      else s
  }

  /** Node `u` relaxing the nodes `0 .. k-1`, in that order. */
  function RelaxUpTo(nodes: seq<Point>, w: Weight, u: nat, k: nat, s: Search): (r: Search)
    requires u < |nodes| && k <= |nodes| && Sized(|nodes|, s) && s.dist[u].Finite?
    ensures Sized(|nodes|, r) && r.dist[u] == s.dist[u]
  {
    if k == 0 then s else Relax(nodes, w, u, k - 1, RelaxUpTo(nodes, w, u, k - 1, s))
  }

  /** Relaxation never raises a distance, and every distance it changes comes with the
      predecessor `u`, its distance through `u` and a heap entry for it. */
  lemma RelaxChanges(nodes: seq<Point>, w: Weight, u: nat, v: nat, s: Search)
    requires u < |nodes| && v < |nodes| && Sized(|nodes|, s) && s.dist[u].Finite?
    ensures var r := Relax(nodes, w, u, v, s);
      && (forall x :: 0 <= x < |nodes| ==> AtMost(r.dist[x], s.dist[x]))
      && (forall x :: 0 <= x < |nodes| && x != v ==> r.dist[x] == s.dist[x] && r.prev[x] == s.prev[x])
      && (r.dist[v] != s.dist[v] <==>
            v != u && Below(s.dist[u].value + Wt(nodes, w, u, v), s.dist[v]))
      && (r.dist[v] != s.dist[v] ==>
            && r.dist[v] == Finite(s.dist[u].value + Wt(nodes, w, u, v))
            && r.prev[v] == Some(u)
            && r.heap == s.heap + [(r.dist[v].value, v)])
      && (r.dist[v] == s.dist[v] ==> r == s)
  {
  }

  method RelaxNeighbors(nodes: seq<Point>, w: Weight, u: nat, dist0: seq<Distance>,
                        prev0: seq<Option<nat>>, heap0: seq<Entry>)
    returns (dist: seq<Distance>, prev: seq<Option<nat>>, heap: seq<Entry>)
    requires u < |nodes| && Sized(|nodes|, Search(dist0, prev0, heap0)) && dist0[u].Finite?
    ensures Search(dist, prev, heap) == RelaxUpTo(nodes, w, u, |nodes|, Search(dist0, prev0, heap0))
  {
    dist, prev, heap := dist0, prev0, heap0;
    for v := 0 to |nodes|
      invariant Search(dist, prev, heap) == RelaxUpTo(nodes, w, u, v, Search(dist0, prev0, heap0))
    {
      if v == u {
        continue;
      }
      var weight := w(nodes[u], nodes[v]);
      var newDist := dist[u].value + weight;
      if Below(newDist, dist[v]) {
        dist := dist[v := Finite(newDist)];
        prev := prev[v := Some(u)];
        heap := heap + [(newDist, v)];
      }
    }
  }

  // The search invariant. `rank` maps each settled node (popped with its best distance and
  // then relaxed from) to the step at which it was settled; `count` is the next step.

  ghost predicate RanksOk(n: nat, rank: map<nat, nat>, count: nat, end: nat)
  {
    end !in rank && forall x :: x in rank ==> x < n && rank[x] < count
  }

  /** The start keeps distance 0 and no predecessor; every known distance is non-negative. */
  ghost predicate StartOk(dist: seq<Distance>, prev: seq<Option<nat>>, start: nat)
  {
    && start < |dist| && start < |prev|
    && dist[start] == Finite(0.0) && prev[start] == None
    && forall v :: 0 <= v < |dist| && dist[v].Finite? ==> 0.0 <= dist[v].value
  }

  /** The predecessor of `v`, if any, is settled, earlier than `v` if `v` is settled too, and
      `v`'s distance is its distance plus the edge; without one, `v` is the start or
      unreached. */
  ghost predicate LinkOk(nodes: seq<Point>, w: Weight, dist: seq<Distance>, prev: seq<Option<nat>>,
                         start: nat, rank: map<nat, nat>, v: nat)
  {
    && v < |prev| && v < |dist| && |dist| == |nodes|
    && match prev[v]
       case None => v == start || dist[v].Infinite?
       case Some(u) =>
         && u in rank && u < |nodes| && dist[v].Finite? && dist[u].Finite?
         && dist[v].value == dist[u].value + Wt(nodes, w, u, v)
         && (v in rank ==> rank[u] < rank[v])
  }

  ghost predicate Links(nodes: seq<Point>, w: Weight, dist: seq<Distance>, prev: seq<Option<nat>>,
                        start: nat, rank: map<nat, nat>)
  {
    forall v :: 0 <= v < |nodes| ==> LinkOk(nodes, w, dist, prev, start, rank, v)
  }

  /** The edge from `u` to `v` cannot shorten `v`'s distance. */
  ghost predicate RelaxedEdge(nodes: seq<Point>, w: Weight, dist: seq<Distance>, u: nat, v: nat)
  {
    && u < |nodes| && v < |nodes| && |dist| == |nodes|
    && dist[u].Finite? && dist[v].Finite?
    && dist[v].value <= dist[u].value + Wt(nodes, w, u, v)
  }

  ghost predicate RelaxedFrom(nodes: seq<Point>, w: Weight, dist: seq<Distance>, u: nat, k: nat)
  {
    forall v :: 0 <= v < k ==> RelaxedEdge(nodes, w, dist, u, v)
  }

  /** No edge out of a settled node can shorten any distance. */
  ghost predicate Relaxed(nodes: seq<Point>, w: Weight, dist: seq<Distance>, rank: map<nat, nat>)
  {
    forall u :: u in rank ==> RelaxedFrom(nodes, w, dist, u, |nodes|)
  }

  /** Every reached node that is not settled waits in the heap with its distance. */
  ghost predicate Queued(s: Search, rank: map<nat, nat>)
  {
    forall v :: 0 <= v < |s.dist| && v !in rank && s.dist[v].Finite? ==> (s.dist[v].value, v) in s.heap
  }

  /** A heap entry is never below its node's distance, and strictly above it once the node is
      settled. */
  ghost predicate EntryOk(s: Search, rank: map<nat, nat>, e: Entry)
  {
    && e.1 < |s.dist| && s.dist[e.1].Finite? && s.dist[e.1].value <= e.0
    && (e.1 in rank ==> s.dist[e.1].value < e.0)
  }

  ghost predicate HeapOk(s: Search, rank: map<nat, nat>)
  {
    && (forall e :: e in s.heap ==> EntryOk(s, rank, e))
    && (forall i, j :: 0 <= i < j < |s.heap| ==> s.heap[i] != s.heap[j])
  }

  /** Settled nodes are no farther than anything still in the heap. */
  ghost predicate SettledFirst(s: Search, rank: map<nat, nat>)
  {
    forall u, e :: u in rank && e in s.heap ==> u < |s.dist| && s.dist[u].Finite? && s.dist[u].value <= e.0
  }

  ghost predicate Inv(nodes: seq<Point>, w: Weight, s: Search, start: nat, end: nat,
                      rank: map<nat, nat>, count: nat)
  {
    && Sized(|nodes|, s) && start < |nodes| && end < |nodes|
    && RanksOk(|nodes|, rank, count, end)
    && StartOk(s.dist, s.prev, start)
    && Links(nodes, w, s.dist, s.prev, start, rank)
    && Relaxed(nodes, w, s.dist, rank)
    && Queued(s, rank)
    && HeapOk(s, rank)
    && SettledFirst(s, rank)
  }

  /** Every settled node is no farther than `u`. */
  ghost predicate UpTo(dist: seq<Distance>, settled: map<nat, nat>, u: nat)
  {
    u < |dist| && dist[u].Finite? &&
    forall x :: x in settled ==> x < |dist| && dist[x].Finite? && dist[x].value <= dist[u].value
  }

  /** The state while `u`, just settled at step `count`, relaxes the nodes `0 .. k-1`. */
  ghost predicate RelaxInv(nodes: seq<Point>, w: Weight, s: Search, start: nat, end: nat,
                           rank: map<nat, nat>, count: nat, u: nat, k: nat)
  {
    var settled := rank[u := count];
    && Sized(|nodes|, s) && start < |nodes| && end < |nodes| && u < |nodes| && k <= |nodes|
    && u !in rank && RanksOk(|nodes|, settled, count + 1, end)
    && StartOk(s.dist, s.prev, start)
    && Links(nodes, w, s.dist, s.prev, start, settled)
    && Relaxed(nodes, w, s.dist, rank) && RelaxedFrom(nodes, w, s.dist, u, k)
    && Queued(s, settled)
    && HeapOk(s, settled)
    && SettledFirst(s, settled)
    && UpTo(s.dist, settled, u)
  }

  /** The state the search starts from satisfies the invariant. */
  lemma InitInv(nodes: seq<Point>, w: Weight, start: nat, end: nat)
    requires start < |nodes| && end < |nodes|
    ensures var n := |nodes|;
      Inv(nodes, w, Search(seq(n, i => if i == start then Finite(0.0) else Infinite),
                           seq(n, i => None), [(0.0, start)]), start, end, map[], 0)
  {
    var n := |nodes|;
    var s := Search(seq(n, i => if i == start then Finite(0.0) else Infinite),
                    seq(n, i => None), [(0.0, start)]);
    assert Links(nodes, w, s.dist, s.prev, start, map[]) by {
      forall v | 0 <= v < n
        ensures LinkOk(nodes, w, s.dist, s.prev, start, map[], v)
      {
      }
    }
  }

  lemma RemoveDistinct(h: seq<Entry>, k: nat)
    requires k < |h| && forall i, j :: 0 <= i < j < |h| ==> h[i] != h[j]
    ensures var r := Remove(h, k); forall i, j :: 0 <= i < j < |r| ==> r[i] != r[j]
  {
    var r := Remove(h, k);
    forall i, j | 0 <= i < j < |r|
      ensures r[i] != r[j]
    {
      var i' := if i < k then i else i + 1;
      var j' := if j < k then j else j + 1;
      assert r[i] == h[i'] && r[j] == h[j'];
    }
  }

  /** Popping a stale entry (one above its node's distance) changes nothing else and keeps
      the invariant. */
  lemma StaleStep(nodes: seq<Point>, w: Weight, s: Search, start: nat, end: nat,
                  rank: map<nat, nat>, count: nat, k: nat)
    requires Inv(nodes, w, s, start, end, rank, count) && k < |s.heap|
    requires s.heap[k].1 < |s.dist| && s.dist[s.heap[k].1].Finite?
    requires s.heap[k].0 > s.dist[s.heap[k].1].value
    ensures Inv(nodes, w, Search(s.dist, s.prev, Remove(s.heap, k)), start, end, rank, count)
  {
    RemoveDistinct(s.heap, k);
  }

  /** Popping a least entry that matches its node's distance settles that node. */
  lemma SettleStep(nodes: seq<Point>, w: Weight, s: Search, start: nat, end: nat,
                   rank: map<nat, nat>, count: nat, k: nat)
    requires Inv(nodes, w, s, start, end, rank, count) && k < |s.heap|
    requires forall e :: e in s.heap ==> s.heap[k].0 <= e.0
    requires s.heap[k].1 < |s.dist| && s.dist[s.heap[k].1].Finite?
    requires s.heap[k].0 == s.dist[s.heap[k].1].value && s.heap[k].1 != end
    ensures RelaxInv(nodes, w, Search(s.dist, s.prev, Remove(s.heap, k)), start, end, rank,
                     count, s.heap[k].1, 0)
  {
    var u := s.heap[k].1;
    var settled := rank[u := count];
    var r := Search(s.dist, s.prev, Remove(s.heap, k));
    assert u !in rank by {
      assert EntryOk(s, rank, s.heap[k]);
    }
    RemoveDistinct(s.heap, k);
    assert Links(nodes, w, r.dist, r.prev, start, settled) by {
      forall v | 0 <= v < |nodes|
        ensures LinkOk(nodes, w, r.dist, r.prev, start, settled, v)
      {
        assert LinkOk(nodes, w, s.dist, s.prev, start, rank, v);
      }
    }
    assert HeapOk(r, settled) by {
      forall e | e in r.heap
        ensures EntryOk(r, settled, e)
      {
        assert EntryOk(s, rank, e);
        if e.1 == u {
          var i :| 0 <= i < |s.heap| && s.heap[i] == e;
          assert i != k;
        }
      }
    }
    assert SettledFirst(r, settled);
    assert UpTo(r.dist, settled, u) by {
      forall x | x in settled
        ensures x < |r.dist| && r.dist[x].Finite? && r.dist[x].value <= r.dist[u].value
      {
        if x != u {
          assert s.heap[k] in s.heap;
        }
      }
    }
  }

  // One relaxation that lowers the distance of `v` to `nd` through the settled node `u`.

  lemma LowerLinks(nodes: seq<Point>, w: Weight, s: Search, r: Search, start: nat,
                   settled: map<nat, nat>, u: nat, v: nat, nd: real)
    requires Sized(|nodes|, s) && u < |nodes| && v < |nodes| && u in settled && v !in settled
    requires s.dist[u].Finite? && nd == s.dist[u].value + Wt(nodes, w, u, v)
    requires r.dist == s.dist[v := Finite(nd)] && r.prev == s.prev[v := Some(u)]
    requires Links(nodes, w, s.dist, s.prev, start, settled)
    ensures Links(nodes, w, r.dist, r.prev, start, settled)
  {
    forall x | 0 <= x < |nodes|
      ensures LinkOk(nodes, w, r.dist, r.prev, start, settled, x)
    {
      assert LinkOk(nodes, w, s.dist, s.prev, start, settled, x);
    }
  }

  lemma LowerRelaxed(nodes: seq<Point>, w: Weight, s: Search, r: Search, rank: map<nat, nat>,
                     u: nat, v: nat, k: nat, nd: real)
    requires Sized(|nodes|, s) && u < |nodes| && k < |nodes| && v == k && v !in rank && u != v
    requires s.dist[u].Finite? && Below(nd, s.dist[v]) && nd == s.dist[u].value + Wt(nodes, w, u, v)
    requires r.dist == s.dist[v := Finite(nd)]
    requires Relaxed(nodes, w, s.dist, rank) && RelaxedFrom(nodes, w, s.dist, u, k)
    ensures Relaxed(nodes, w, r.dist, rank) && RelaxedFrom(nodes, w, r.dist, u, k + 1)
  {
    forall x, y | x in rank && 0 <= y < |nodes|
      ensures RelaxedEdge(nodes, w, r.dist, x, y)
    {
      assert RelaxedEdge(nodes, w, s.dist, x, y);
    }
    forall y | 0 <= y < k + 1
      ensures RelaxedEdge(nodes, w, r.dist, u, y)
    {
      if y < k {
        assert RelaxedEdge(nodes, w, s.dist, u, y);
      }
    }
  }

  lemma LowerHeap(nodes: seq<Point>, w: Weight, s: Search, r: Search, settled: map<nat, nat>,
                  u: nat, v: nat, nd: real)
    requires Sized(|nodes|, s) && u < |nodes| && v < |nodes| && v !in settled
    requires Below(nd, s.dist[v]) && UpTo(s.dist, settled, u) && s.dist[u].value <= nd
    requires r == Search(s.dist[v := Finite(nd)], s.prev[v := Some(u)], s.heap + [(nd, v)])
    requires Queued(s, settled) && HeapOk(s, settled) && SettledFirst(s, settled)
    ensures Queued(r, settled) && HeapOk(r, settled) && SettledFirst(r, settled)
    ensures UpTo(r.dist, settled, u)
  {
    forall e | e in r.heap
      ensures EntryOk(r, settled, e)
    {
      if e != (nd, v) {
        assert EntryOk(s, settled, e);
      }
    }
    forall i, j | 0 <= i < j < |r.heap|
      ensures r.heap[i] != r.heap[j]
    {
      if j == |s.heap| {
        assert EntryOk(s, settled, r.heap[i]);
      }
    }
  }

  /** One relaxation keeps the invariant of the relaxing round. */
  lemma RelaxStep(nodes: seq<Point>, w: Weight, s: Search, start: nat, end: nat,
                  rank: map<nat, nat>, count: nat, u: nat, k: nat)
    requires NonNegative(w) && RelaxInv(nodes, w, s, start, end, rank, count, u, k) && k < |nodes|
    ensures RelaxInv(nodes, w, Relax(nodes, w, u, k, s), start, end, rank, count, u, k + 1)
  {
    var settled := rank[u := count];
    var r := Relax(nodes, w, u, k, s);
    var nd := s.dist[u].value + Wt(nodes, w, u, k);
    assert 0.0 <= Wt(nodes, w, u, k);
    if k != u && Below(nd, s.dist[k]) {
      assert k !in settled;
      LowerLinks(nodes, w, s, r, start, settled, u, k, nd);
      LowerRelaxed(nodes, w, s, r, rank, u, k, k, nd);
      LowerHeap(nodes, w, s, r, settled, u, k, nd);
    } else {
      assert RelaxedEdge(nodes, w, s.dist, u, k);
    }
  }

  lemma {:induction false} RelaxAll(nodes: seq<Point>, w: Weight, s: Search, start: nat, end: nat,
                                    rank: map<nat, nat>, count: nat, u: nat, k: nat)
    requires NonNegative(w) && RelaxInv(nodes, w, s, start, end, rank, count, u, 0) && k <= |nodes|
    ensures RelaxInv(nodes, w, RelaxUpTo(nodes, w, u, k, s), start, end, rank, count, u, k)
  {
    if k > 0 {
      RelaxAll(nodes, w, s, start, end, rank, count, u, k - 1);
      RelaxStep(nodes, w, RelaxUpTo(nodes, w, u, k - 1, s), start, end, rank, count, u, k - 1);
    }
  }

  /** Once `u` has relaxed every node, it joins the settled nodes and the invariant holds. */
  lemma RelaxDone(nodes: seq<Point>, w: Weight, s: Search, start: nat, end: nat,
                  rank: map<nat, nat>, count: nat, u: nat)
    requires RelaxInv(nodes, w, s, start, end, rank, count, u, |nodes|)
    ensures Inv(nodes, w, s, start, end, rank[u := count], count + 1)
  {
  }

  /** Until the end node is settled the heap is never empty: either the start waits in it, or
      the start was settled, reached the end, and the end waits in it. */
  lemma HeapNotEmpty(nodes: seq<Point>, w: Weight, s: Search, start: nat, end: nat,
                     rank: map<nat, nat>, count: nat)
    requires Inv(nodes, w, s, start, end, rank, count)
    ensures s.heap != []
  {
    if start in rank {
      assert RelaxedEdge(nodes, w, s.dist, start, end);
    }
  }

  ghost predicate AllSettled(p: seq<nat>, rank: map<nat, nat>)
  {
    forall i :: 0 <= i < |p| ==> p[i] in rank
  }

  /** The heart of Dijkstra's argument: a walk from the start through settled nodes only is
      no shorter than the distance of its last node, and any other walk from the start is no
      shorter than the least entry `m` of the heap. */
  lemma {:induction false} LowerBound(nodes: seq<Point>, w: Weight, s: Search, start: nat,
                                      rank: map<nat, nat>, m: real, p: seq<nat>)
    requires NonNegative(w) && Sized(|nodes|, s) && StartOk(s.dist, s.prev, start)
    requires Relaxed(nodes, w, s.dist, rank) && Queued(s, rank)
    requires forall e :: e in s.heap ==> m <= e.0
    requires IsPath(|nodes|, p) && p[0] == start
    ensures AllSettled(p, rank) ==>
      s.dist[Last(p)].Finite? && s.dist[Last(p)].value <= PathWeight(nodes, w, p)
    ensures !AllSettled(p, rank) ==> m <= PathWeight(nodes, w, p)
    decreases |p|
  {
    if |p| == 1 {
      if start !in rank {
        assert (s.dist[start].value, start) in s.heap;
      }
    } else {
      var q := p[..|p| - 1];
      var x, z := q[|q| - 1], p[|p| - 1];
      assert IsPath(|nodes|, q);
      LowerBound(nodes, w, s, start, rank, m, q);
      assert 0.0 <= Wt(nodes, w, x, z);
      if AllSettled(q, rank) {
        assert RelaxedEdge(nodes, w, s.dist, x, z);
        if z !in rank {
          assert (s.dist[z].value, z) in s.heap;
          assert !AllSettled(p, rank);
        } else {
          assert AllSettled(p, rank);
        }
      } else {
        var i :| 0 <= i < |q| && q[i] !in rank;
        assert p[i] !in rank;
      }
    }
  }

  /** When the least entry of the heap is the end node at its distance, no walk from the
      start to the end is shorter than that distance. */
  lemma Reached(nodes: seq<Point>, w: Weight, s: Search, start: nat, end: nat,
                rank: map<nat, nat>, count: nat, k: nat)
    requires NonNegative(w) && Inv(nodes, w, s, start, end, rank, count) && k < |s.heap|
    requires forall e :: e in s.heap ==> s.heap[k].0 <= e.0
    requires s.heap[k].1 == end && s.dist[end].Finite? && s.heap[k].0 == s.dist[end].value
    ensures forall p :: IsPath(|nodes|, p) && p[0] == start && Last(p) == end ==>
      s.dist[end].value <= PathWeight(nodes, w, p)
  {
    forall p | IsPath(|nodes|, p) && p[0] == start && Last(p) == end
      ensures s.dist[end].value <= PathWeight(nodes, w, p)
    {
      LowerBound(nodes, w, s, start, rank, s.heap[k].0, p);
      assert !AllSettled(p, rank) by {
        assert p[|p| - 1] !in rank;
      }
    }
  }

  /** The node indices `0 .. n-1`. */
  function Nodes(n: nat): (r: set<nat>)
    ensures forall i: nat :: i in r <==> i < n
  {
    if n == 0 then {} else Nodes(n - 1) + {n - 1}
  }

  /** Settling a new node leaves fewer unsettled ones. */
  lemma FewerUnsettled(n: nat, rank: map<nat, nat>, u: nat, c: nat)
    requires u < n && u !in rank
    ensures |Nodes(n) - rank[u := c].Keys| < |Nodes(n) - rank.Keys|
  {
    var before, after := Nodes(n) - rank.Keys, Nodes(n) - rank[u := c].Keys;
    assert before == after + (before - after) && after * (before - after) == {};
    assert u in before - after;
  }

  /** The height of a node in the predecessor forest: its settling step, or `count` for the
      unsettled end node. Predecessors are strictly lower. */
  ghost function Height(rank: map<nat, nat>, count: nat, v: nat): nat
  {
    if v in rank then rank[v] else count
  }

  /** Heights strictly decrease along `trace`. */
  ghost predicate Descending(rank: map<nat, nat>, count: nat, trace: seq<nat>)
  {
    forall i, j :: 0 <= i < j < |trace| ==> Height(rank, count, trace[j]) < Height(rank, count, trace[i])
  }

  lemma DescendingSnoc(rank: map<nat, nat>, count: nat, trace: seq<nat>, v: nat)
    requires Descending(rank, count, trace) && trace != []
    requires Height(rank, count, v) < Height(rank, count, trace[|trace| - 1])
    ensures Descending(rank, count, trace + [v])
  {
    var t := trace + [v];
    forall i, j | 0 <= i < j < |t|
      ensures Height(rank, count, t[j]) < Height(rank, count, t[i])
    {
      if j == |trace| && i < |trace| - 1 {
        assert Height(rank, count, trace[|trace| - 1]) < Height(rank, count, trace[i]);
      }
    }
  }

  /** `trace` reversed is a walk whose weight is the distance of `trace[0]` less that of its
      last node. */
  ghost predicate ChainOk(nodes: seq<Point>, w: Weight, dist: seq<Distance>, trace: seq<nat>)
  {
    && trace != [] && |dist| == |nodes|
    && trace[0] < |nodes| && trace[|trace| - 1] < |nodes|
    && IsPath(|nodes|, Reverse(trace))
    && dist[trace[0]].Finite? && dist[trace[|trace| - 1]].Finite?
    && dist[trace[0]].value == dist[trace[|trace| - 1]].value + PathWeight(nodes, w, Reverse(trace))
  }

  lemma ReverseSnoc(trace: seq<nat>, v: nat)
    ensures Reverse(trace + [v]) == [v] + Reverse(trace)
  {
    assert (trace + [v])[..|trace|] == trace;
  }

  lemma ChainSnoc(nodes: seq<Point>, w: Weight, dist: seq<Distance>, trace: seq<nat>, v: nat)
    requires |dist| == |nodes| && v < |nodes| && dist[v].Finite?
    requires trace != [] ==>
      && ChainOk(nodes, w, dist, trace)
      && dist[trace[|trace| - 1]].value == dist[v].value + Wt(nodes, w, v, trace[|trace| - 1])
    ensures ChainOk(nodes, w, dist, trace + [v])
  {
    ReverseSnoc(trace, v);
    var t := trace + [v];
    if trace != [] {
      var r := Reverse(trace);
      assert r[0] == trace[|trace| - 1];
      PathWeightCons(nodes, w, v, r);
    } else {
      assert Reverse(t) == [v];
    }
  }

  /** The trace so far runs from the end node along predecessor links; `current` is the
      next node to visit, or `None` past the start. */
  ghost predicate TraceOk(nodes: seq<Point>, w: Weight, dist: seq<Distance>, prev: seq<Option<nat>>,
                          end: nat, rank: map<nat, nat>, count: nat,
                          trace: seq<nat>, current: Option<nat>)
  {
    && |dist| == |nodes| && |prev| == |nodes|
    && (current.Some? ==> current.value < |nodes| && dist[current.value].Finite?)
    && (trace == [] ==> current == Some(end))
    && (trace != [] ==>
          && trace[0] == end && trace[|trace| - 1] < |nodes|
          && current == prev[trace[|trace| - 1]]
          && (current.Some? ==>
                Height(rank, count, current.value) < Height(rank, count, trace[|trace| - 1]))
          && Descending(rank, count, trace)
          && ChainOk(nodes, w, dist, trace))
  }

  lemma TraceStep(nodes: seq<Point>, w: Weight, dist: seq<Distance>, prev: seq<Option<nat>>,
                  start: nat, end: nat, rank: map<nat, nat>, count: nat,
                  trace: seq<nat>, current: Option<nat>)
    requires RanksOk(|nodes|, rank, count, end) && Links(nodes, w, dist, prev, start, rank)
    requires TraceOk(nodes, w, dist, prev, end, rank, count, trace, current) && current.Some?
    ensures TraceOk(nodes, w, dist, prev, end, rank, count, trace + [current.value],
                    prev[current.value])
  {
    var v := current.value;
    assert LinkOk(nodes, w, dist, prev, start, rank, v);
    if trace != [] {
      DescendingSnoc(rank, count, trace, v);
      assert LinkOk(nodes, w, dist, prev, start, rank, trace[|trace| - 1]);
    }
    ChainSnoc(nodes, w, dist, trace, v);
  }

  /** Strictly decreasing heights make the reversed trace free of repeats. */
  lemma DescendingDistinct(rank: map<nat, nat>, count: nat, trace: seq<nat>)
    requires Descending(rank, count, trace)
    ensures Distinct(Reverse(trace))
  {
    var path := Reverse(trace);
    forall i, j | 0 <= i < j < |path|
      ensures path[i] != path[j]
    {
      var a, b := |trace| - 1 - j, |trace| - 1 - i;
      assert path[i] == trace[b] && path[j] == trace[a] && a < b;
      assert Height(rank, count, trace[b]) < Height(rank, count, trace[a]);
    }
  }

  lemma TraceEnd(nodes: seq<Point>, w: Weight, dist: seq<Distance>, prev: seq<Option<nat>>,
                 start: nat, end: nat, rank: map<nat, nat>, count: nat, trace: seq<nat>)
    requires StartOk(dist, prev, start) && Links(nodes, w, dist, prev, start, rank)
    requires TraceOk(nodes, w, dist, prev, end, rank, count, trace, None)
    ensures var path := Reverse(trace);
      && IsPath(|nodes|, path) && path[0] == start && Last(path) == end && Distinct(path)
      && PathWeight(nodes, w, path) == dist[end].value
  {
    assert LinkOk(nodes, w, dist, prev, start, rank, trace[|trace| - 1]);
    DescendingDistinct(rank, count, trace);
  }

  /** Following predecessors from the end node back to the start, then reversing. */
  method TracePath(nodes: seq<Point>, w: Weight, prev: seq<Option<nat>>, end: nat,
                   ghost dist: seq<Distance>, ghost start: nat, ghost rank: map<nat, nat>,
                   ghost count: nat)
    returns (path: seq<nat>)
    requires |dist| == |nodes| && |prev| == |nodes| && end < |nodes|
    requires RanksOk(|nodes|, rank, count, end) && StartOk(dist, prev, start)
    requires Links(nodes, w, dist, prev, start, rank) && dist[end].Finite?
    ensures IsPath(|nodes|, path) && path[0] == start && Last(path) == end && Distinct(path)
    ensures PathWeight(nodes, w, path) == dist[end].value
  {
    var trace: seq<nat> := [];
    var current: Option<nat> := Some(end);
    while current.Some?
      invariant TraceOk(nodes, w, dist, prev, end, rank, count, trace, current)
      decreases if current.Some? then Height(rank, count, current.value) + 1 else 0
    {
      TraceStep(nodes, w, dist, prev, start, end, rank, count, trace, current);
      trace := trace + [current.value];
      current := prev[current.value];
    }
    TraceEnd(nodes, w, dist, prev, start, end, rank, count, trace);
    path := Reverse(trace);
  }

  /** `path` is a walk from `start` to `end` no heavier than any other one. */
  ghost predicate ShortestWalk(nodes: seq<Point>, w: Weight, path: seq<nat>, start: int, end: int)
  {
    && IsPath(|nodes|, path) && path[0] == start && Last(path) == end
    && forall p :: IsPath(|nodes|, p) && p[0] == start && Last(p) == end ==>
         PathWeight(nodes, w, path) <= PathWeight(nodes, w, p)
  }

  /** The exceptions the program raises for node indices outside `0 .. n-1`. */
  datatype Failure = IndexError | KeyError

  /** Which exception an out-of-range call raises: looking up the point of a start index
      beyond the array (when the search relaxes from it, that is, unless start and end
      coincide) raises IndexError; otherwise the trace reaches an index that is not a key
      of the predecessor table and raises KeyError. */
  function OutOfRange(n: nat, start: int, end: int): (r: Option<Failure>)
    ensures r.None? <==> 0 <= start < n && 0 <= end < n
    ensures r == Some(IndexError) <==> n > 0 && start != end && (n <= start || start + n < 0)
  {
    if 0 <= start < n && 0 <= end < n then None
    else if n > 0 && start != end && (n <= start || start + n < 0) then Some(IndexError)
    else Some(KeyError)
  }

  /** No walk from the start to the end is lighter than the end's distance. */
  ghost predicate Minimal(nodes: seq<Point>, w: Weight, dist: seq<Distance>, start: nat, end: nat)
  {
    && end < |dist| && dist[end].Finite?
    && forall p :: IsPath(|nodes|, p) && p[0] == start && Last(p) == end ==>
         dist[end].value <= PathWeight(nodes, w, p)
  }

  /** The state in which the search stops: the end node is popped with its distance, which is
      minimal, and the predecessor links lead back from it. */
  ghost predicate Found(nodes: seq<Point>, w: Weight, dist: seq<Distance>, prev: seq<Option<nat>>,
                        start: nat, end: nat, rank: map<nat, nat>, count: nat)
  {
    && |dist| == |nodes| && |prev| == |nodes| && end < |nodes|
    && RanksOk(|nodes|, rank, count, end) && StartOk(dist, prev, start)
    && Links(nodes, w, dist, prev, start, rank)
    && Minimal(nodes, w, dist, start, end)
  }

  /** One pass of the search loop: pop the least entry; skip it if stale; stop at the end
      node; otherwise settle the node and relax all the others from it. */
  method SearchRound(nodes: seq<Point>, w: Weight, start: nat, end: nat, dist0: seq<Distance>,
                     prev0: seq<Option<nat>>, heap0: seq<Entry>,
                     ghost rank0: map<nat, nat>, ghost count0: nat)
    returns (dist: seq<Distance>, prev: seq<Option<nat>>, heap: seq<Entry>, stop: bool,
             ghost rank: map<nat, nat>, ghost count: nat)
    requires NonNegative(w) && heap0 != []
    requires Inv(nodes, w, Search(dist0, prev0, heap0), start, end, rank0, count0)
    ensures stop ==> Found(nodes, w, dist, prev, start, end, rank, count)
    ensures !stop ==> Inv(nodes, w, Search(dist, prev, heap), start, end, rank, count)
    ensures !stop ==>
      || |Nodes(|nodes|) - rank.Keys| < |Nodes(|nodes|) - rank0.Keys|
      || (rank == rank0 && |heap| < |heap0|)
  {
    ghost var before := Search(dist0, prev0, heap0);
    rank, count := rank0, count0;
    var k := MinIndex(heap0);
    var entry := heap0[k];
    dist, prev, heap := dist0, prev0, Remove(heap0, k);
    var d, current := entry.0, entry.1;
    assert EntryOk(before, rank, entry);
    if d > dist[current].value {
      StaleStep(nodes, w, before, start, end, rank, count, k);
      return dist, prev, heap, false, rank, count;
    }
    if current == end {
      Reached(nodes, w, before, start, end, rank, count, k);
      return dist, prev, heap, true, rank, count;
    }
    SettleStep(nodes, w, before, start, end, rank, count, k);
    ghost var popped := Search(dist, prev, heap);
    dist, prev, heap := RelaxNeighbors(nodes, w, current, dist, prev, heap);
    RelaxAll(nodes, w, popped, start, end, rank, count, current, |nodes|);
    RelaxDone(nodes, w, Search(dist, prev, heap), start, end, rank, count, current);
    FewerUnsettled(|nodes|, rank, current, count);
    rank := rank[current := count];
    count := count + 1;
    stop := false;
  }

  /** The traced walk weighs the end's minimal distance, so it is a shortest walk; when start
      and end coincide it is that node alone. */
  lemma Conclude(nodes: seq<Point>, w: Weight, dist: seq<Distance>, start: nat, end: nat,
                 path: seq<nat>)
    requires Minimal(nodes, w, dist, start, end)
    requires IsPath(|nodes|, path) && path[0] == start && Last(path) == end && Distinct(path)
    requires PathWeight(nodes, w, path) == dist[end].value
    ensures ShortestWalk(nodes, w, path, start, end)
    ensures start == end ==> path == [start]
  {
  }

  /** `dijkstra`: the shortest walk from `startIndex` to `endIndex` in the complete graph over
      `nodes`, or the exception an index out of range causes. */
  method Dijkstra(nodes: seq<Point>, w: Weight, startIndex: int, endIndex: int)
    returns (r: Result<seq<nat>, Failure>)
    requires NonNegative(w)
    ensures r.Err? <==> OutOfRange(|nodes|, startIndex, endIndex).Some?
    ensures r.Err? ==> r.error == OutOfRange(|nodes|, startIndex, endIndex).value
    ensures r.Ok? ==> ShortestWalk(nodes, w, r.value, startIndex, endIndex) && Distinct(r.value)
    ensures r.Ok? && startIndex == endIndex ==> r.value == [startIndex]
  {
    var failure := OutOfRange(|nodes|, startIndex, endIndex);
    if failure.Some? {
      return Err(failure.value);
    }
    var n := |nodes|;
    var start: nat, end: nat := startIndex, endIndex;
    var dist := seq(n, i => if i == start then Finite(0.0) else Infinite);
    var prev: seq<Option<nat>> := seq(n, i => None);
    var heap: seq<Entry> := [(0.0, start)];
    ghost var rank: map<nat, nat> := map[];
    ghost var count := 0;
    InitInv(nodes, w, start, end);
    var stop := false;
    while heap != []
      invariant Inv(nodes, w, Search(dist, prev, heap), start, end, rank, count)
      decreases |Nodes(n) - rank.Keys|, |heap|
    {
      dist, prev, heap, stop, rank, count :=
        SearchRound(nodes, w, start, end, dist, prev, heap, rank, count);
      if stop {
        break;
      }
    }
    if !stop {
      HeapNotEmpty(nodes, w, Search(dist, prev, heap), start, end, rank, count);
    }
    var path := TracePath(nodes, w, prev, end, dist, start, rank, count);
    Conclude(nodes, w, dist, start, end, path);
    return Ok(path);
  }
}
