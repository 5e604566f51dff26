/** Breadth-first search for a route between two metro stations over an adjacency-list
    map. The search keeps a FIFO queue of paths and a set of stations already reached; it
    returns the first path it dequeues that ends at the destination, or `None`. */
module MetroPath {
  import opened Wrappers

  type Station = string

  /** Each station's neighbours, in the order the search visits them. */
  type Graph = map<Station, seq<Station>>

  /** `graph.get(station, [])`: a station that is not a key has no neighbours. */
  function Neighbors(g: Graph, s: Station): seq<Station>
  {
    if s in g then g[s] else []
  }

  function Last(p: seq<Station>): Station
    requires p != []
  {
    p[|p| - 1]
  }

  /** The station after position `i` is a neighbour of the one at `i`. */
  predicate Edge(g: Graph, p: seq<Station>, i: nat)
    requires i + 1 < |p|
  {
    p[i + 1] in Neighbors(g, p[i])
  }

  /** A non-empty sequence of stations in which each one is a neighbour of the one before. */
  predicate IsWalk(g: Graph, p: seq<Station>)
  {
    p != [] && forall i :: 0 <= i < |p| - 1 ==> Edge(g, p, i)
  }

  /** A walk from `s` to `t`. */
  predicate Connects(g: Graph, p: seq<Station>, s: Station, t: Station)
  {
    IsWalk(g, p) && p[0] == s && Last(p) == t
  }

  /** No station occurs twice. */
  predicate Distinct(p: seq<Station>)
  {
    forall i, j :: 0 <= i < j < |p| ==> p[i] != p[j]
  }

  ghost predicate Reachable(g: Graph, s: Station, t: Station)
  {
    exists p :: Connects(g, p, s, t)
  }

  /** A walk from `s` to `t` with no more stations than any other. */
  ghost predicate Shortest(g: Graph, p: seq<Station>, s: Station, t: Station)
  {
    Connects(g, p, s, t) && forall q :: Connects(g, q, s, t) ==> |p| <= |q|
  }

  /** Every station the map mentions, as a key or as a neighbour. */
  function Stations(g: Graph): set<Station>
  {
    g.Keys + set u, i | u in g && 0 <= i < |g[u]| :: g[u][i]
  }

  lemma NeighborInStations(g: Graph, u: Station, k: nat)
    requires k < |Neighbors(g, u)|
    ensures Neighbors(g, u)[k] in Stations(g)
  {
    assert u in g;
  }

  // The search's invariants, over the queue `Q`, the reached set `V`, the expanded
  // stations `D`, the path recorded for each reached station `P` and the length `level` of
  // the paths being expanded.

  /** Each reached station's path is a walk from the start to it, without repetitions, that
      only passes reached stations. */
  ghost predicate PathsOk(g: Graph, start: Station, V: set<Station>, P: map<Station, seq<Station>>)
  {
    && start in V
    && (forall v :: v in V ==> v in P)
    && (forall v :: v in V ==> Connects(g, P[v], start, v) && Distinct(P[v]))
    && (forall v, k :: v in V && 0 <= k < |P[v]| ==> P[v][k] in V)
  }

  /** Each recorded path is a shortest one. */
  ghost predicate Optimal(g: Graph, start: Station, V: set<Station>, P: map<Station, seq<Station>>)
    requires forall v :: v in V ==> v in P
  {
    forall v, q :: v in V && Connects(g, q, start, v) ==> |P[v]| <= |q|
  }

  /** The queue holds recorded paths, shortest first, one or two lengths apart at most. */
  ghost predicate QueueOk(Q: seq<seq<Station>>, P: map<Station, seq<Station>>, V: set<Station>, level: nat)
  {
    && (forall i :: 0 <= i < |Q| ==>
          Q[i] != [] && Last(Q[i]) in V && Last(Q[i]) in P && Q[i] == P[Last(Q[i])]
          && level <= |Q[i]| <= level + 1)
    && (forall i, j :: 0 <= i <= j < |Q| ==> |Q[i]| <= |Q[j]|)
  }

  /** The expanded stations have short paths and all their neighbours reached. */
  ghost predicate DoneOk(g: Graph, D: set<Station>, V: set<Station>, P: map<Station, seq<Station>>, level: nat)
  {
    && D <= V
    && (forall d :: d in D ==> d in P && |P[d]| <= level)
    && (forall d, k :: d in D && 0 <= k < |Neighbors(g, d)| ==> Neighbors(g, d)[k] in V)
  }

  /** A reached station is expanded, being expanded (`cur`), or waiting in the queue. */
  ghost predicate Pending(V: set<Station>, D: set<Station>, Q: seq<seq<Station>>,
                          P: map<Station, seq<Station>>, cur: set<Station>)
  {
    forall u :: u in V && u in P ==> u in D || u in cur || P[u] in Q
  }

  /** Every walk from the start with at most `level` stations ends at a reached station. */
  ghost predicate LevelComplete(g: Graph, start: Station, V: set<Station>, level: nat)
  {
    forall q :: IsWalk(g, q) && q[0] == start && |q| <= level ==> Last(q) in V
  }

  /** A prefix of a walk is a walk. */
  lemma WalkPrefix(g: Graph, q: seq<Station>, n: nat)
    requires IsWalk(g, q) && 1 <= n <= |q|
    ensures IsWalk(g, q[..n]) && q[..n][0] == q[0] && Last(q[..n]) == q[n - 1]
  {
    forall i | 0 <= i < n - 1 ensures Edge(g, q[..n], i) {
      assert Edge(g, q, i);
      assert q[..n][i] == q[i] && q[..n][i + 1] == q[i + 1];
    }
  }

  /** The invariant of the search loop. */
  ghost predicate SearchInv(g: Graph, start: Station, end: Station, V: set<Station>, D: set<Station>,
                            P: map<Station, seq<Station>>, Q: seq<seq<Station>>, level: nat)
  {
    && level >= 1 && PathsOk(g, start, V, P) && Optimal(g, start, V, P)
    && QueueOk(Q, P, V, level) && DoneOk(g, D, V, P, level)
    && Pending(V, D, Q, P, {}) && LevelComplete(g, start, V, level)
    && end !in D
  }

  /** The invariant while the neighbours of the dequeued path `h` are enqueued. */
  ghost predicate ExpandInv(g: Graph, start: Station, V: set<Station>, D: set<Station>,
                            P: map<Station, seq<Station>>, Q: seq<seq<Station>>, level: nat,
                            h: seq<Station>)
  {
    && level >= 1 && PathsOk(g, start, V, P) && Optimal(g, start, V, P)
    && QueueOk(Q, P, V, level) && DoneOk(g, D, V, P, level)
    && h != [] && Last(h) in V && h == P[Last(h)] && |h| == level
    && Pending(V, D, Q, P, {Last(h)}) && LevelComplete(g, start, V, level)
  }

  /** The search starts with the one-station path to the start. */
  lemma SearchStart(g: Graph, start: Station, end: Station)
    ensures SearchInv(g, start, end, {start}, {}, map[start := [start]], [[start]], 1)
  {
    var P := map[start := [start]];
    forall v, q | v in {start} && Connects(g, q, start, v) ensures |P[v]| <= |q| {
    }
    forall q | IsWalk(g, q) && q[0] == start && |q| <= 1 ensures Last(q) in {start} {
    }
  }

  lemma PopQueue(Q: seq<seq<Station>>, P: map<Station, seq<Station>>, V: set<Station>, level: nat)
    requires QueueOk(Q, P, V, level) && Q != []
    ensures QueueOk(Q[1..], P, V, |Q[0]|) && level <= |Q[0]| <= level + 1
  {
    assert forall i :: 0 <= i < |Q| - 1 ==> Q[1..][i] == Q[i + 1];
  }

  lemma PopPending(V: set<Station>, D: set<Station>, Q: seq<seq<Station>>, P: map<Station, seq<Station>>)
    requires Pending(V, D, Q, P, {}) && Q != [] && Q[0] != []
    requires forall v :: v in V && v in P ==> P[v] != [] && Last(P[v]) == v
    ensures Pending(V, D, Q[1..], P, {Last(Q[0])})
  {
    forall u | u in V && u in P && u !in D && u != Last(Q[0]) ensures P[u] in Q[1..] {
      assert P[u] in Q && P[u] != Q[0];
      var i :| 0 <= i < |Q| && Q[i] == P[u];
      assert Q[1..][i - 1] == P[u];
    }
  }

  /** Once the head has length `L`, every reached station with a shorter path is expanded. */
  lemma ShorterDone(V: set<Station>, D: set<Station>, Q: seq<seq<Station>>,
                    P: map<Station, seq<Station>>, h: seq<Station>)
    requires h != [] && Last(h) in P && h == P[Last(h)]
    requires QueueOk(Q, P, V, |h|) && Pending(V, D, Q, P, {Last(h)})
    ensures forall u :: u in V && u in P && |P[u]| < |h| ==> u in D
  {
    forall u | u in V && u in P && |P[u]| < |h| ensures u in D {
    }
  }

  /** When every reached station with a path of `level` stations is expanded, walks one
      station longer also end at reached stations. */
  lemma LevelUp(g: Graph, start: Station, V: set<Station>, D: set<Station>,
                P: map<Station, seq<Station>>, level: nat)
    requires level >= 1 && PathsOk(g, start, V, P) && Optimal(g, start, V, P)
    requires LevelComplete(g, start, V, level)
    requires forall d, k :: d in D && 0 <= k < |Neighbors(g, d)| ==> Neighbors(g, d)[k] in V
    requires forall u :: u in V && u in P && |P[u]| < level + 1 ==> u in D
    ensures LevelComplete(g, start, V, level + 1)
  {
    forall q | IsWalk(g, q) && q[0] == start && |q| <= level + 1 ensures Last(q) in V {
      if |q| == level + 1 {
        WalkPrefix(g, q, level);
        var u := q[level - 1];
        assert Connects(g, q[..level], start, u);
        assert u in D;
        assert Edge(g, q, level - 1);
        var k :| 0 <= k < |Neighbors(g, u)| && Neighbors(g, u)[k] == q[level];
      }
    }
  }

  /** Dequeuing the head: the paths being expanded now have the head's length, and every
      walk that short already ends at a reached station. */
  lemma PopStep(g: Graph, start: Station, end: Station, V: set<Station>, D: set<Station>,
                P: map<Station, seq<Station>>, Q: seq<seq<Station>>, level: nat)
    requires SearchInv(g, start, end, V, D, P, Q, level) && Q != []
    ensures ExpandInv(g, start, V, D, P, Q[1..], |Q[0]|, Q[0])
  {
    var h := Q[0];
    PopQueue(Q, P, V, level);
    PopPending(V, D, Q, P);
    ShorterDone(V, D, Q[1..], P, h);
    if |h| == level + 1 {
      LevelUp(g, start, V, D, P, level);
    }
  }

  lemma PushPaths(g: Graph, start: Station, V: set<Station>, P: map<Station, seq<Station>>,
                  h: seq<Station>, n: Station)
    requires PathsOk(g, start, V, P)
    requires h != [] && Last(h) in V && h == P[Last(h)]
    requires n in Neighbors(g, Last(h)) && n !in V
    ensures PathsOk(g, start, V + {n}, P[n := h + [n]])
  {
    var p := h + [n];
    forall i | 0 <= i < |p| - 1 ensures Edge(g, p, i) {
      if i < |h| - 1 {
        assert Edge(g, h, i);
        assert p[i] == h[i] && p[i + 1] == h[i + 1];
      }
    }
    forall i, j | 0 <= i < j < |p| ensures p[i] != p[j] {
      if j < |h| {
        assert p[i] == h[i] && p[j] == h[j];
      } else {
        assert h[i] in V;
      }
    }
  }

  lemma PushOptimal(g: Graph, start: Station, V: set<Station>, P: map<Station, seq<Station>>,
                    h: seq<Station>, n: Station, level: nat)
    requires forall v :: v in V ==> v in P
    requires Optimal(g, start, V, P) && LevelComplete(g, start, V, level)
    requires |h| == level && n !in V
    ensures forall v :: v in V + {n} ==> v in P[n := h + [n]]
    ensures Optimal(g, start, V + {n}, P[n := h + [n]])
  {
    var P' := P[n := h + [n]];
    forall v, q | v in V + {n} && Connects(g, q, start, v) ensures |P'[v]| <= |q| {
      if v == n {
        if |q| <= level {
          assert Last(q) in V;
        }
      } else {
        assert P'[v] == P[v];
      }
    }
  }

  lemma PushQueue(Q: seq<seq<Station>>, P: map<Station, seq<Station>>, V: set<Station>, level: nat,
                  h: seq<Station>, n: Station)
    requires QueueOk(Q, P, V, level) && |h| == level && n !in V
    ensures QueueOk(Q + [h + [n]], P[n := h + [n]], V + {n}, level)
  {
    var Q' := Q + [h + [n]];
    forall i | 0 <= i < |Q| ensures Q'[i] == Q[i] && Last(Q[i]) != n {
    }
  }

  lemma PushPending(V: set<Station>, D: set<Station>, Q: seq<seq<Station>>,
                    P: map<Station, seq<Station>>, cur: Station, h: seq<Station>, n: Station)
    requires Pending(V, D, Q, P, {cur}) && n !in V
    ensures Pending(V + {n}, D, Q + [h + [n]], P[n := h + [n]], {cur})
  {
    forall u | u in V && u in P && u !in D && u != cur ensures P[u] in Q + [h + [n]] {
      var i :| 0 <= i < |Q| && Q[i] == P[u];
      assert (Q + [h + [n]])[i] == P[u];
    }
  }

  lemma PushDone(g: Graph, D: set<Station>, V: set<Station>, P: map<Station, seq<Station>>,
                 level: nat, n: Station, p: seq<Station>)
    requires DoneOk(g, D, V, P, level) && n !in V
    ensures DoneOk(g, D, V + {n}, P[n := p], level)
  {
    assert forall d :: d in D ==> P[n := p][d] == P[d];
  }

  lemma PushLevel(g: Graph, start: Station, V: set<Station>, level: nat, n: Station)
    requires LevelComplete(g, start, V, level)
    ensures LevelComplete(g, start, V + {n}, level)
  {
  }

  /** Enqueuing the extension of the head path to a neighbour not reached before. */
  lemma PushStep(g: Graph, start: Station, V: set<Station>, D: set<Station>,
                 P: map<Station, seq<Station>>, Q: seq<seq<Station>>, level: nat,
                 h: seq<Station>, n: Station)
    requires ExpandInv(g, start, V, D, P, Q, level, h)
    requires n in Neighbors(g, Last(h)) && n !in V
    ensures ExpandInv(g, start, V + {n}, D, P[n := h + [n]], Q + [h + [n]], level, h)
  {
    PushPaths(g, start, V, P, h, n);
    PushOptimal(g, start, V, P, h, n, level);
    PushQueue(Q, P, V, level, h, n);
    PushPending(V, D, Q, P, Last(h), h, n);
    PushDone(g, D, V, P, level, n, h + [n]);
    PushLevel(g, start, V, level, n);
    assert P[n := h + [n]][Last(h)] == h;
  }

  /** After its neighbours are enqueued the dequeued station counts as expanded. */
  lemma ExpandDone(g: Graph, start: Station, end: Station, V: set<Station>, D: set<Station>,
                   P: map<Station, seq<Station>>, Q: seq<seq<Station>>, level: nat, h: seq<Station>)
    requires ExpandInv(g, start, V, D, P, Q, level, h)
    requires forall k :: 0 <= k < |Neighbors(g, Last(h))| ==> Neighbors(g, Last(h))[k] in V
    requires end !in D && end != Last(h)
    ensures SearchInv(g, start, end, V, D + {Last(h)}, P, Q, level)
  {
  }

  /** With nothing left to expand and every neighbour of an expanded station reached, every
      walk from the start stays among the expanded stations. */
  lemma {:induction false} ClosedWalk(g: Graph, start: Station, D: set<Station>, q: seq<Station>)
    requires start in D
    requires forall d, k :: d in D && 0 <= k < |Neighbors(g, d)| ==> Neighbors(g, d)[k] in D
    requires IsWalk(g, q) && q[0] == start
    ensures Last(q) in D
    decreases |q|
  {
    if |q| > 1 {
      WalkPrefix(g, q, |q| - 1);
      ClosedWalk(g, start, D, q[..|q| - 1]);
      var u := q[|q| - 2];
      assert Edge(g, q, |q| - 2);
      var k :| 0 <= k < |Neighbors(g, u)| && Neighbors(g, u)[k] == q[|q| - 1];
    }
  }

  /** An empty queue means every reachable station was expanded, and the destination was
      not among them. */
  lemma Exhausted(g: Graph, start: Station, end: Station, V: set<Station>, D: set<Station>,
                  P: map<Station, seq<Station>>, level: nat)
    requires SearchInv(g, start, end, V, D, P, [], level)
    ensures !Reachable(g, start, end)
  {
    assert V == D;
    forall q | Connects(g, q, start, end) ensures false {
      ClosedWalk(g, start, D, q);
    }
  }

  /** What the inner loop does with the neighbours `ns` of the dequeued path's station,
      from queue `Q`, reached set `V` and recorded paths `P`: in order, each one not reached
      yet is marked reached and its extension of `current` is enqueued and recorded. */
  function Expand(current: seq<Station>, ns: seq<Station>, Q: seq<seq<Station>>, V: set<Station>,
                  P: map<Station, seq<Station>>): (r: (seq<seq<Station>>, set<Station>, map<Station, seq<Station>>))
    ensures Q <= r.0 && V <= r.1
  {
    if ns == [] then (Q, V, P)
    else
      var (q, v, p) := Expand(current, ns[..|ns| - 1], Q, V, P);
      var n := ns[|ns| - 1];
      if n in v then (q, v, p) else (q + [current + [n]], v + {n}, p[n := current + [n]])
  }

  /** Every neighbour ends up reached, and the neighbours are the only new stations. */
  lemma {:induction false} ExpandReaches(current: seq<Station>, ns: seq<Station>, Q: seq<seq<Station>>,
                                         V: set<Station>, P: map<Station, seq<Station>>)
    ensures var r := Expand(current, ns, Q, V, P);
            && (forall k :: 0 <= k < |ns| ==> ns[k] in r.1)
            && (forall u :: u in r.1 ==> u in V || u in ns)
            && ((r.1 == V && r.0 == Q) || exists k :: 0 <= k < |ns| && ns[k] in r.1 - V)
  {
    if ns != [] {
      var init := ns[..|ns| - 1];
      ExpandReaches(current, init, Q, V, P);
      assert forall k :: 0 <= k < |init| ==> init[k] == ns[k];
    }
  }

  /** The inner loop keeps the search invariant. */
  lemma {:induction false} ExpandKeepsInv(g: Graph, start: Station, D: set<Station>, level: nat,
                                          current: seq<Station>, ns: seq<Station>,
                                          Q: seq<seq<Station>>, V: set<Station>, P: map<Station, seq<Station>>)
    requires ExpandInv(g, start, V, D, P, Q, level, current)
    requires forall k :: 0 <= k < |ns| ==> ns[k] in Neighbors(g, Last(current))
    ensures var r := Expand(current, ns, Q, V, P); ExpandInv(g, start, r.1, D, r.2, r.0, level, current)
  {
    if ns != [] {
      var init := ns[..|ns| - 1];
      assert forall k :: 0 <= k < |init| ==> init[k] == ns[k];
      ExpandKeepsInv(g, start, D, level, current, init, Q, V, P);
      var (q, v, p) := Expand(current, init, Q, V, P);
      var n := ns[|ns| - 1];
      if n !in v {
        PushStep(g, start, v, D, p, q, level, current, n);
      }
    }
  }

  /** The inner loop of `find_path`: each neighbour of the dequeued path's last station that
      was not reached before is marked reached and its extended path enqueued. */
  method EnqueueNeighbors(graph: Graph, current: seq<Station>, queue: seq<seq<Station>>,
                          visited: set<Station>, ghost pathTo: map<Station, seq<Station>>)
    returns (queue': seq<seq<Station>>, visited': set<Station>, ghost pathTo': map<Station, seq<Station>>)
    requires current != []
    ensures (queue', visited', pathTo') == Expand(current, Neighbors(graph, Last(current)), queue, visited, pathTo)
  {
    queue', visited', pathTo' := queue, visited, pathTo;
    var station := current[|current| - 1];
    var neighbors := Neighbors(graph, station);
    for j := 0 to |neighbors|
      invariant (queue', visited', pathTo') == Expand(current, neighbors[..j], queue, visited, pathTo)
    {
      var neighbor := neighbors[j];
      assert neighbors[..j + 1][..j] == neighbors[..j];
      if neighbor !in visited' {
        visited' := visited' + {neighbor};
        pathTo' := pathTo'[neighbor := current + [neighbor]];
        queue' := queue' + [current + [neighbor]];
      }
    }
    assert neighbors[..|neighbors|] == neighbors;
  }

  /** One round of the search loop: dequeue the head, which does not end at the destination,
      enqueue its station's new neighbours and count the station as expanded. */
  lemma SearchStep(g: Graph, start: Station, end: Station, V: set<Station>, D: set<Station>,
                   P: map<Station, seq<Station>>, Q: seq<seq<Station>>, level: nat)
    requires SearchInv(g, start, end, V, D, P, Q, level) && Q != [] && Q[0] != [] && Last(Q[0]) != end
    ensures var h := Q[0];
            var r := Expand(h, Neighbors(g, Last(h)), Q[1..], V, P);
            SearchInv(g, start, end, r.1, D + {Last(h)}, r.2, r.0, |h|)
  {
    var h := Q[0];
    var ns := Neighbors(g, Last(h));
    PopStep(g, start, end, V, D, P, Q, level);
    ExpandKeepsInv(g, start, D, |h|, h, ns, Q[1..], V, P);
    ExpandReaches(h, ns, Q[1..], V, P);
    var r := Expand(h, ns, Q[1..], V, P);
    ExpandDone(g, start, end, r.1, D, r.2, r.0, |h|, h);
  }

  /** The search only reaches stations of the map, and each round reaches a new one or
      shortens the queue. */
  lemma SearchProgress(g: Graph, h: seq<Station>, Q: seq<seq<Station>>, V: set<Station>,
                       P: map<Station, seq<Station>>)
    requires h != [] && V <= Stations(g)
    ensures var r := Expand(h, Neighbors(g, Last(h)), Q, V, P);
            && r.1 <= Stations(g)
            && ((r.1 == V && r.0 == Q) || |Stations(g) - r.1| < |Stations(g) - V|)
  {
    var ns := Neighbors(g, Last(h));
    ExpandReaches(h, ns, Q, V, P);
    var r := Expand(h, ns, Q, V, P);
    forall u | u in r.1 ensures u in Stations(g) {
      if u !in V {
        var k :| 0 <= k < |ns| && ns[k] == u;
        NeighborInStations(g, Last(h), k);
      }
    }
    if r.1 != V || r.0 != Q {
      var k :| 0 <= k < |ns| && ns[k] in r.1 - V;
      NeighborInStations(g, Last(h), k);
      var before, after := Stations(g) - V, Stations(g) - r.1;
      assert before == after + (before - after) && after * (before - after) == {};
      assert ns[k] in before - after;
    }
  }

  /** The head path that reaches the destination is a shortest route without repeats. */
  lemma Found(g: Graph, start: Station, end: Station, V: set<Station>, D: set<Station>,
              P: map<Station, seq<Station>>, Q: seq<seq<Station>>, level: nat)
    requires SearchInv(g, start, end, V, D, P, Q, level) && Q != [] && Q[0] != [] && Last(Q[0]) == end
    ensures Shortest(g, Q[0], start, end) && Distinct(Q[0])
  {
    assert Q[0] == P[end];
  }

  /** `find_path`: `None` when either station is not a key of the map or the destination
      cannot be reached; otherwise a shortest route, which never repeats a station. */
  method FindPath(graph: Graph, start: Station, end: Station) returns (path: Option<seq<Station>>)
    ensures path.None? <==> start !in graph || end !in graph || !Reachable(graph, start, end)
    ensures path.Some? ==> Shortest(graph, path.value, start, end) && Distinct(path.value)
  {
    if start !in graph || end !in graph {
      return None;
    }
    var queue: seq<seq<Station>> := [[start]];
    var visited: set<Station> := {start};
    ghost var done: set<Station> := {};
    ghost var pathTo: map<Station, seq<Station>> := map[start := [start]];
    ghost var level: nat := 1;
    SearchStart(graph, start, end);
    while queue != []
      invariant SearchInv(graph, start, end, visited, done, pathTo, queue, level)
      invariant visited <= Stations(graph)
      decreases |Stations(graph) - visited|, |queue|
    {
      var current := queue[0];
      assert current != [];
      if current[|current| - 1] == end {
        Found(graph, start, end, visited, done, pathTo, queue, level);
        return Some(current);
      }
      SearchStep(graph, start, end, visited, done, pathTo, queue, level);
      SearchProgress(graph, current, queue[1..], visited, pathTo);
      queue, visited, pathTo := EnqueueNeighbors(graph, current, queue[1..], visited, pathTo);
      done := done + {current[|current| - 1]};
      level := |current|;
    }
    Exhausted(graph, start, end, visited, done, pathTo, level);
    return None;
  }

  /** The map of the program's main script: two lines meeting at Mirdamad and Teatr. */
  const Metro: Graph := map[
    "Tajrish" := ["Gheytariyeh"],
    "Gheytariyeh" := ["Tajrish", "Mirdamad"],
    "Mirdamad" := ["Gheytariyeh", "Teatr"],
    "Sadeghiyeh" := ["Teatr"],
    "Teatr" := ["Sadeghiyeh", "Mirdamad"]]

  /** The one route of at most three stations from Tajrish to Mirdamad. */
  lemma RouteTajrishMirdamad(p: seq<Station>)
    requires Connects(Metro, p, "Tajrish", "Mirdamad") && |p| <= 3
    ensures p == ["Tajrish", "Gheytariyeh", "Mirdamad"]
  {
    assert |p| > 1;
    assert Edge(Metro, p, 0);
    assert p[1] == "Gheytariyeh";
    assert |p| > 2;
    assert Edge(Metro, p, 1);
  }

  /** The one route of at most three stations from Sadeghiyeh to Mirdamad. */
  lemma RouteSadeghiyehMirdamad(p: seq<Station>)
    requires Connects(Metro, p, "Sadeghiyeh", "Mirdamad") && |p| <= 3
    ensures p == ["Sadeghiyeh", "Teatr", "Mirdamad"]
  {
    assert |p| > 1;
    assert Edge(Metro, p, 0);
    assert p[1] == "Teatr";
    assert |p| > 2;
    assert Edge(Metro, p, 1);
  }

  /** The one route without repeats of at most four stations from Gheytariyeh to
      Sadeghiyeh. */
  lemma RouteGheytariyehSadeghiyeh(p: seq<Station>)
    requires Connects(Metro, p, "Gheytariyeh", "Sadeghiyeh") && Distinct(p) && |p| <= 4
    ensures p == ["Gheytariyeh", "Mirdamad", "Teatr", "Sadeghiyeh"]
  {
    assert |p| > 1;
    assert Edge(Metro, p, 0);
    assert p[1] == "Tajrish" || p[1] == "Mirdamad";
    assert |p| > 2;
    assert Edge(Metro, p, 1);
    assert p[1] == "Mirdamad";
    assert p[2] == "Teatr";
    assert |p| > 3;
    assert Edge(Metro, p, 2);
  }

  /** The one route without repeats of at most five stations from Sadeghiyeh to Tajrish. */
  lemma RouteSadeghiyehTajrish(p: seq<Station>)
    requires Connects(Metro, p, "Sadeghiyeh", "Tajrish") && Distinct(p) && |p| <= 5
    ensures p == ["Sadeghiyeh", "Teatr", "Mirdamad", "Gheytariyeh", "Tajrish"]
  {
    assert |p| > 1;
    assert Edge(Metro, p, 0);
    assert p[1] == "Teatr";
    assert |p| > 2;
    assert Edge(Metro, p, 1);
    assert p[2] == "Mirdamad";
    assert |p| > 3;
    assert Edge(Metro, p, 2);
    assert p[3] == "Gheytariyeh";
    assert |p| > 4;
    assert Edge(Metro, p, 3);
  }

  /** The program's test cases, one per method: the route it prints for a pair of
      stations, `None` for a station missing from the map. */
  method TajrishToMirdamad() returns (r: Option<seq<Station>>)
    ensures r == Some(["Tajrish", "Gheytariyeh", "Mirdamad"])
  {
    var w: seq<Station> := ["Tajrish", "Gheytariyeh", "Mirdamad"];
    assert Edge(Metro, w, 0) && Edge(Metro, w, 1);
    assert Connects(Metro, w, "Tajrish", "Mirdamad");
    r := FindPath(Metro, "Tajrish", "Mirdamad");
    RouteTajrishMirdamad(r.value);
  }

  method GheytariyehToSadeghiyeh() returns (r: Option<seq<Station>>)
    ensures r == Some(["Gheytariyeh", "Mirdamad", "Teatr", "Sadeghiyeh"])
  {
    var w: seq<Station> := ["Gheytariyeh", "Mirdamad", "Teatr", "Sadeghiyeh"];
    assert Edge(Metro, w, 0) && Edge(Metro, w, 1) && Edge(Metro, w, 2);
    assert Connects(Metro, w, "Gheytariyeh", "Sadeghiyeh");
    r := FindPath(Metro, "Gheytariyeh", "Sadeghiyeh");
    RouteGheytariyehSadeghiyeh(r.value);
  }

  method TajrishToAzadi() returns (r: Option<seq<Station>>)
    ensures r == None
  {
    r := FindPath(Metro, "Tajrish", "Azadi");
  }

  method SadeghiyehToTajrish() returns (r: Option<seq<Station>>)
    ensures r == Some(["Sadeghiyeh", "Teatr", "Mirdamad", "Gheytariyeh", "Tajrish"])
  {
    var w: seq<Station> := ["Sadeghiyeh", "Teatr", "Mirdamad", "Gheytariyeh", "Tajrish"];
    assert Edge(Metro, w, 0) && Edge(Metro, w, 1) && Edge(Metro, w, 2) && Edge(Metro, w, 3);
    assert Connects(Metro, w, "Sadeghiyeh", "Tajrish");
    r := FindPath(Metro, "Sadeghiyeh", "Tajrish");
    RouteSadeghiyehTajrish(r.value);
  }

  method TeatrToTeatr() returns (r: Option<seq<Station>>)
    ensures r == Some(["Teatr"])
  {
    assert Connects(Metro, ["Teatr"], "Teatr", "Teatr");
    r := FindPath(Metro, "Teatr", "Teatr");
    assert |r.value| == 1 && r.value[0] == "Teatr";
    assert r.value == [r.value[0]];
  }

  method SadeghiyehToMirdamad() returns (r: Option<seq<Station>>)
    ensures r == Some(["Sadeghiyeh", "Teatr", "Mirdamad"])
  {
    var w: seq<Station> := ["Sadeghiyeh", "Teatr", "Mirdamad"];
    assert Edge(Metro, w, 0) && Edge(Metro, w, 1);
    assert Connects(Metro, w, "Sadeghiyeh", "Mirdamad");
    r := FindPath(Metro, "Sadeghiyeh", "Mirdamad");
    RouteSadeghiyehMirdamad(r.value);
  }
}
